/** Utils.java: the query-string parser used by the HTTP search endpoint and
    the HTML escaper used when rendering product names. */
module Utils {
  import opened JavaLang

  // ---------------------------------------------------------------------------
  // parseQueryParams
  // ---------------------------------------------------------------------------

  /** The decoded key of one `&`-separated piece, or `None` when the piece is
      skipped: it has no `=`, or its first `=` is its first character. */
  function KeyOf(pair: string, decode: string -> string): (k: Option<string>)
    ensures k.None? <==> '=' !in pair || pair[0] == '='
  {
    var idx := IndexOf(pair, '=');
    if idx > 0 then Some(decode(pair[..idx])) else None
  }

  /** The value stored for a kept piece: the decoded text after its first `=`,
      or the literal empty string when nothing follows that `=`. */
  function ValueOf(pair: string, decode: string -> string): (v: string)
    ensures v != "" ==> KeyOf(pair, decode).Some?
  {
    var idx := IndexOf(pair, '=');
    if idx > 0 && |pair| > idx + 1 then decode(pair[idx + 1..]) else ""
  }

  /** The map after the loop has handled `pairs`, in order, starting from an empty map. */
  function ParamsOf(pairs: seq<string>, decode: string -> string): (params: map<string, string>)
    ensures |params| <= |pairs|
  {
    if pairs == [] then map[]
    else
      var params := ParamsOf(pairs[..|pairs| - 1], decode);
      var last := pairs[|pairs| - 1];
      match KeyOf(last, decode)
      case None => params
      case Some(k) => params[k := ValueOf(last, decode)]
  }

  /** What `parseQueryParams` returns; `decode` stands for `URLDecoder.decode(_, "UTF-8")`. */
  function QueryParams(query: Option<string>, decode: string -> string): map<string, string>
  {
    if query.None? || query.value == "" then map[] else ParamsOf(JavaSplit(query.value, '&'), decode)
  }

  method ParseQueryParams(query: Option<string>, decode: string -> string) returns (params: map<string, string>)
    ensures params == QueryParams(query, decode)
  {
    params := map[];
    if query.None? || |query.value| == 0 {
      return;
    }
    var pairs := JavaSplit(query.value, '&');
    var n := 0;
    while n < |pairs|
      invariant 0 <= n <= |pairs|
      invariant params == ParamsOf(pairs[..n], decode)
    {
      var pair := pairs[n];
      var idx := IndexOf(pair, '=');
      ParamsOfStep(pairs, n, decode);
      if idx > 0 && |pair| > idx + 1 {
        var key := decode(pair[..idx]);
        var value := decode(pair[idx + 1..]);
        assert KeyOf(pair, decode) == Some(key) && ValueOf(pair, decode) == value;
        params := params[key := value];
      } else if idx > 0 {
        var key := decode(pair[..idx]);
        assert KeyOf(pair, decode) == Some(key) && ValueOf(pair, decode) == "";
        params := params[key := ""];
      } else {
        assert KeyOf(pair, decode).None?;
      }
      assert params == ParamsOf(pairs[..n + 1], decode);
      n := n + 1;
    }
    assert pairs[..n] == pairs;
  }

  /** One more turn of the loop: the piece at `n` updates the map or is skipped. */
  lemma ParamsOfStep(pairs: seq<string>, n: int, decode: string -> string)
    requires 0 <= n < |pairs|
    ensures KeyOf(pairs[n], decode).None? ==> ParamsOf(pairs[..n + 1], decode) == ParamsOf(pairs[..n], decode)
    ensures KeyOf(pairs[n], decode).Some? ==>
              ParamsOf(pairs[..n + 1], decode) == ParamsOf(pairs[..n], decode)[KeyOf(pairs[n], decode).value := ValueOf(pairs[n], decode)]
  {
    assert pairs[..n + 1][..n] == pairs[..n];
  }

  /** A missing or empty query string gives an empty map. */
  lemma EmptyQueryHasNoParams(decode: string -> string)
    ensures QueryParams(None, decode) == map[]
    ensures QueryParams(Some(""), decode) == map[]
  {
  }

  /** Every key of the result is the key of some kept piece, and every kept
      piece's key is in the result. */
  lemma {:induction false} ParamKeysComeFromKeptPairs(pairs: seq<string>, decode: string -> string, k: string)
    ensures k in ParamsOf(pairs, decode) <==> exists i :: 0 <= i < |pairs| && KeyOf(pairs[i], decode) == Some(k)
    decreases |pairs|
  {
    if pairs != [] {
      var init := pairs[..|pairs| - 1];
      ParamKeysComeFromKeptPairs(init, decode, k);
      if k in ParamsOf(pairs, decode) && KeyOf(pairs[|pairs| - 1], decode) != Some(k) {
        var i :| 0 <= i < |init| && KeyOf(init[i], decode) == Some(k);
        assert pairs[i] == init[i];
      }
      if exists i :: 0 <= i < |pairs| && KeyOf(pairs[i], decode) == Some(k) {
        var i :| 0 <= i < |pairs| && KeyOf(pairs[i], decode) == Some(k);
        if i < |init| {
          assert init[i] == pairs[i];
        }
      }
    }
  }

  /** A key's value comes from the last kept piece with that key: later pieces
      overwrite earlier ones. */
  lemma {:induction false} LastPairWins(pairs: seq<string>, decode: string -> string, i: int, k: string)
    requires 0 <= i < |pairs| && KeyOf(pairs[i], decode) == Some(k)
    requires forall j :: i < j < |pairs| ==> KeyOf(pairs[j], decode) != Some(k)
    ensures k in ParamsOf(pairs, decode) && ParamsOf(pairs, decode)[k] == ValueOf(pairs[i], decode)
    decreases |pairs|
  {
    if i < |pairs| - 1 {
      var init := pairs[..|pairs| - 1];
      assert init[i] == pairs[i];
      forall j | i < j < |init| ensures KeyOf(init[j], decode) != Some(k) {
        assert init[j] == pairs[j];
      }
      LastPairWins(init, decode, i, k);
    }
  }

  /** A decoder that changes nothing, for stating examples. */
  function Identity(s: string): string
  {
    s
  }

  /** With the identity decoder, a kept piece is its key, the first `=`, and its
      value: the key is non-empty and has no `=`, the value is all that follows
      (so `a=b=c` gives `a` the value `b=c`, and `a=` gives it `""`). */
  lemma KeptPairSplitsAtFirstEquals(pair: string)
    requires KeyOf(pair, Identity).Some?
    ensures KeyOf(pair, Identity).value != "" && '=' !in KeyOf(pair, Identity).value
    ensures pair == KeyOf(pair, Identity).value + "=" + ValueOf(pair, Identity)
  {
    var idx := IndexOf(pair, '=');
    assert pair == pair[..idx] + "=" + pair[idx + 1..];
  }

  lemma ParamsOfOnePair(pair: string, decode: string -> string)
    ensures ParamsOf([pair], decode) == (match KeyOf(pair, decode) case None => map[] case Some(k) => map[k := ValueOf(pair, decode)])
  {
    assert [pair][..0] == [];
  }

  /** `a=b=c` parses to `{a: "b=c"}`. */
  lemma ValueKeepsLaterEquals()
    ensures QueryParams(Some("a=b=c"), Identity) == map["a" := "b=c"]
  {
    var q := "a=b=c";
    assert IndexOf(q, '&') == -1;
    assert SplitAll(q, '&') == [q];
    assert JavaSplit(q, '&') == [q];
    assert IndexOf(q, '=') == 1;
    assert q[..1] == "a" && q[2..] == "b=c";
    ParamsOfOnePair(q, Identity);
  }

  // ---------------------------------------------------------------------------
  // escapeHTML
  // ---------------------------------------------------------------------------

  /** The five characters `escapeHTML` rewrites. */
  predicate IsHtmlSpecial(c: char)
  {
    c == '&' || c == '<' || c == '>' || c == '"' || c == '\''
  }

  /** The text `escapeHTML` puts in place of one character. */
  function EscapedChar(c: char): (r: string)
    ensures !IsHtmlSpecial(c) <==> r == [c]
    ensures |r| >= 1 && r[0] == (if IsHtmlSpecial(c) then '&' else c)
    ensures forall i :: 1 <= i < |r| ==> !IsHtmlSpecial(r[i])
  {
    if c == '&' then "&amp;"
    else if c == '<' then "&lt;"
    else if c == '>' then "&gt;"
    else if c == '"' then "&quot;"
    else if c == '\'' then "&#x27;"
    else [c]
  }

  /** The character-by-character escaping: each character replaced by `EscapedChar`. */
  function EscapeEach(s: string): string
  {
    if s == [] then [] else EscapedChar(s[0]) + EscapeEach(s[1..])
  }

  /** The five `replace` calls, in the source's order, `&` first. */
  function ReplaceChain(s: string): (r: string)
    ensures |r| >= |s|
    ensures (forall i :: 0 <= i < |s| ==> !IsHtmlSpecial(s[i])) ==> r == s
  {
    ReplaceChar(ReplaceChar(ReplaceChar(ReplaceChar(ReplaceChar(s, '&', "&amp;"), '<', "&lt;"), '>', "&gt;"), '"', "&quot;"), '\'', "&#x27;")
  }

  /** `escapeHTML`: `""` for `null`, else the chain of replacements. */
  function EscapeHTML(input: Option<string>): (r: string)
    ensures input.None? ==> r == ""
    ensures input.Some? ==> |r| >= |input.value|
  {
    match input
    case None => ""
    case Some(s) => ReplaceChain(s)
  }

  lemma {:induction false} ReplaceChainConcat(a: string, b: string)
    ensures ReplaceChain(a + b) == ReplaceChain(a) + ReplaceChain(b)
  {
    ReplaceCharConcat(a, b, '&', "&amp;");
    var a1, b1 := ReplaceChar(a, '&', "&amp;"), ReplaceChar(b, '&', "&amp;");
    ReplaceCharConcat(a1, b1, '<', "&lt;");
    var a2, b2 := ReplaceChar(a1, '<', "&lt;"), ReplaceChar(b1, '<', "&lt;");
    ReplaceCharConcat(a2, b2, '>', "&gt;");
    var a3, b3 := ReplaceChar(a2, '>', "&gt;"), ReplaceChar(b2, '>', "&gt;");
    ReplaceCharConcat(a3, b3, '"', "&quot;");
    var a4, b4 := ReplaceChar(a3, '"', "&quot;"), ReplaceChar(b3, '"', "&quot;");
    ReplaceCharConcat(a4, b4, '\'', "&#x27;");
  }

  lemma ReplaceOne(c: char, target: char, replacement: string)
    ensures ReplaceChar([c], target, replacement) == if c == target then replacement else [c]
  {
    assert [c][1..] == [];
  }

  lemma ReplaceChainOne(c: char)
    ensures ReplaceChain([c]) == EscapedChar(c)
  {
    var s0 := [c];
    ReplaceOne(c, '&', "&amp;");
    var s1 := ReplaceChar(s0, '&', "&amp;");
    if c == '&' {
      assert s1 == "&amp;";
      assert '<' !in s1 && '>' !in s1 && '"' !in s1 && '\'' !in s1;
    } else {
      assert s1 == s0;
      ReplaceOne(c, '<', "&lt;");
      var s2 := ReplaceChar(s1, '<', "&lt;");
      if c == '<' {
        assert s2 == "&lt;";
        assert '>' !in s2 && '"' !in s2 && '\'' !in s2;
      } else {
        assert s2 == s0;
        ReplaceOne(c, '>', "&gt;");
        var s3 := ReplaceChar(s2, '>', "&gt;");
        if c == '>' {
          assert s3 == "&gt;";
          assert '"' !in s3 && '\'' !in s3;
        } else {
          assert s3 == s0;
          ReplaceOne(c, '"', "&quot;");
          var s4 := ReplaceChar(s3, '"', "&quot;");
          if c == '"' {
            assert s4 == "&quot;";
            assert '\'' !in s4;
          } else {
            assert s4 == s0;
            ReplaceOne(c, '\'', "&#x27;");
          }
        }
      }
    }
  }

  /** Because `&` is replaced first and no later replacement introduces any of
      the five characters, the chain equals the per-character mapping. */
  lemma {:induction false} EscapeHTMLIsPerCharacter(input: Option<string>)
    ensures EscapeHTML(input) == if input.None? then "" else EscapeEach(input.value)
    decreases if input.None? then 0 else |input.value|
  {
    if input.Some? && input.value != [] {
      var s := input.value;
      assert s == [s[0]] + s[1..];
      ReplaceChainConcat([s[0]], s[1..]);
      ReplaceChainOne(s[0]);
      EscapeHTMLIsPerCharacter(Some(s[1..]));
    }
  }

  /** No raw `<`, `>`, `"` or `'` anywhere in `r`. */
  predicate NoRawMarkup(r: string)
  {
    forall i :: 0 <= i < |r| ==> r[i] != '<' && r[i] != '>' && r[i] != '"' && r[i] != '\''
  }

  lemma {:induction false} EscapeEachHasNoRawMarkup(s: string)
    ensures NoRawMarkup(EscapeEach(s))
    ensures |EscapeEach(s)| >= |s|
  {
    if s != [] {
      EscapeEachHasNoRawMarkup(s[1..]);
      var e, rest := EscapedChar(s[0]), EscapeEach(s[1..]);
      forall i | 0 <= i < |e + rest|
        ensures (e + rest)[i] != '<' && (e + rest)[i] != '>' && (e + rest)[i] != '"' && (e + rest)[i] != '\''
      {
        if i >= |e| {
          assert (e + rest)[i] == rest[i - |e|];
        }
      }
    }
  }

  /** The output holds no raw `<`, `>`, `"` or `'`, and is never shorter than the input. */
  lemma EscapeHTMLHasNoRawMarkup(s: string)
    ensures NoRawMarkup(EscapeHTML(Some(s)))
    ensures |EscapeHTML(Some(s))| >= |s|
  {
    EscapeHTMLIsPerCharacter(Some(s));
    EscapeEachHasNoRawMarkup(s);
  }

  lemma {:induction false} EscapeEachKeepsPlainText(s: string)
    requires forall i :: 0 <= i < |s| ==> !IsHtmlSpecial(s[i])
    ensures EscapeEach(s) == s
  {
    if s != [] {
      EscapeEachKeepsPlainText(s[1..]);
      assert s == [s[0]] + s[1..];
    }
  }

  /** A string with none of the five characters comes back unchanged. */
  lemma EscapeHTMLKeepsPlainText(s: string)
    requires forall i :: 0 <= i < |s| ==> !IsHtmlSpecial(s[i])
    ensures EscapeHTML(Some(s)) == s
  {
    EscapeHTMLIsPerCharacter(Some(s));
    EscapeEachKeepsPlainText(s);
  }
}
