/** The conversion between a customer's payment methods and the MongoDB
    documents stored in the customer's `payment_methods` array. */
module PaymentConversion {
  import opened JavaLang
  import opened Records

  /** A BSON document whose values are strings or `null`. */
  type Document = map<string, Option<string>>

  const TYPE_KEY: string := "type"
  const DETAILS_KEY: string := "details"

  /** `Document.getString(key)`: the value under `key`, or `null` when the key is absent. */
  function GetString(doc: Document, key: string): (r: Option<string>)
    ensures key !in doc ==> r.None?
    ensures key in doc ==> r == doc[key]
  {
    if key in doc then doc[key] else None
  }

  /** `new Document("type", pm.getType()).append("details", pm.getDetails())`:
      both keys are always present, a `null` field giving a `null` value. */
  function PaymentDocument(pm: PaymentMethod): (doc: Document)
    ensures doc.Keys == {TYPE_KEY, DETAILS_KEY}
    ensures GetString(doc, TYPE_KEY) == pm.paymentType && GetString(doc, DETAILS_KEY) == pm.details
  {
    map[TYPE_KEY := pm.paymentType, DETAILS_KEY := pm.details]
  }

  /** `new PaymentMethod(doc.getString("type"), doc.getString("details"))`: every
      other key of the document is ignored. */
  function DocumentPaymentMethod(doc: Document): (pm: PaymentMethod)
    ensures TYPE_KEY in doc ==> pm.paymentType == doc[TYPE_KEY]
    ensures DETAILS_KEY in doc ==> pm.details == doc[DETAILS_KEY]
    ensures TYPE_KEY !in doc ==> pm.paymentType.None?
    ensures DETAILS_KEY !in doc ==> pm.details.None?
  {
    PaymentMethod(GetString(doc, TYPE_KEY), GetString(doc, DETAILS_KEY))
  }

  /** The documents for the payment methods, one each, in order. */
  function PaymentDocuments(pms: seq<PaymentMethod>): (docs: seq<Document>)
    ensures |docs| == |pms|
    ensures forall k :: 0 <= k < |pms| ==> docs[k] == PaymentDocument(pms[k])
  {
    if pms == [] then [] else PaymentDocuments(pms[..|pms| - 1]) + [PaymentDocument(pms[|pms| - 1])]
  }

  /** The payment methods read back from the documents, one each, in order. */
  function PaymentMethodsOf(docs: seq<Document>): (pms: seq<PaymentMethod>)
    ensures |pms| == |docs|
    ensures forall k :: 0 <= k < |docs| ==> pms[k] == DocumentPaymentMethod(docs[k])
  {
    if docs == [] then [] else PaymentMethodsOf(docs[..|docs| - 1]) + [DocumentPaymentMethod(docs[|docs| - 1])]
  }

  /** convertPaymentMethods: one document per payment method, appended in a loop. */
  method ConvertPaymentMethods(paymentMethods: seq<PaymentMethod>) returns (paymentDocs: seq<Document>)
    ensures paymentDocs == PaymentDocuments(paymentMethods)
  {
    paymentDocs := [];
    var i := 0;
    while i < |paymentMethods|
      invariant 0 <= i <= |paymentMethods|
      invariant paymentDocs == PaymentDocuments(paymentMethods[..i])
    {
      assert paymentMethods[..i + 1][..i] == paymentMethods[..i];
      paymentDocs := paymentDocs + [PaymentDocument(paymentMethods[i])];
      i := i + 1;
    }
    assert paymentMethods[..i] == paymentMethods;
  }

  /** convertDocumentsToPaymentMethods: one payment method per document, appended in a loop. */
  method ConvertDocumentsToPaymentMethods(paymentDocs: seq<Document>) returns (paymentMethods: seq<PaymentMethod>)
    ensures paymentMethods == PaymentMethodsOf(paymentDocs)
  {
    paymentMethods := [];
    var i := 0;
    while i < |paymentDocs|
      invariant 0 <= i <= |paymentDocs|
      invariant paymentMethods == PaymentMethodsOf(paymentDocs[..i])
    {
      assert paymentDocs[..i + 1][..i] == paymentDocs[..i];
      paymentMethods := paymentMethods + [DocumentPaymentMethod(paymentDocs[i])];
      i := i + 1;
    }
    assert paymentDocs[..i] == paymentDocs;
  }

  /** Storing payment methods and reading them back gives the same list: same
      length, same order, each type and details kept, `null`s included. */
  lemma {:induction false} PaymentRoundTrip(pms: seq<PaymentMethod>)
    ensures PaymentMethodsOf(PaymentDocuments(pms)) == pms
    decreases |pms|
  {
    if pms != [] {
      var init := pms[..|pms| - 1];
      var docs := PaymentDocuments(pms);
      PaymentRoundTrip(init);
      assert docs[..|docs| - 1] == PaymentDocuments(init);
    }
  }

  /** A document holding exactly the two keys is rebuilt exactly from the payment method read from it. */
  lemma DocumentRoundTrip(doc: Document)
    requires doc.Keys == {TYPE_KEY, DETAILS_KEY}
    ensures PaymentDocument(DocumentPaymentMethod(doc)) == doc
  {
    var back := PaymentDocument(DocumentPaymentMethod(doc));
    assert forall key :: key in doc ==> back[key] == doc[key];
  }

  /** Reading documents that hold exactly the two keys and storing the result again gives the same documents. */
  lemma {:induction false} DocumentsRoundTrip(docs: seq<Document>)
    requires forall k :: 0 <= k < |docs| ==> docs[k].Keys == {TYPE_KEY, DETAILS_KEY}
    ensures PaymentDocuments(PaymentMethodsOf(docs)) == docs
    decreases |docs|
  {
    if docs != [] {
      var init, last := docs[..|docs| - 1], docs[|docs| - 1];
      var pms := PaymentMethodsOf(docs);
      assert pms == PaymentMethodsOf(init) + [DocumentPaymentMethod(last)];
      assert pms[..|pms| - 1] == PaymentMethodsOf(init);
      DocumentsRoundTrip(init);
      DocumentRoundTrip(last);
      assert PaymentDocuments(pms) == PaymentDocuments(PaymentMethodsOf(init)) + [PaymentDocument(DocumentPaymentMethod(last))];
      assert docs == init + [last];
    }
  }

  /** Keys other than the two are lost, and a missing key reads back as `null`. */
  lemma ExtraKeysAreDropped(doc: Document, key: string)
    requires key in doc && key != TYPE_KEY && key != DETAILS_KEY
    ensures key !in PaymentDocument(DocumentPaymentMethod(doc))
    ensures DocumentPaymentMethod(map[]) == PaymentMethod(None, None)
  {
  }
}
