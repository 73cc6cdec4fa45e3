/** HTML escaping of text before it is embedded in markup (renderer.js `escapeHtml`). */
module Html {
  import opened Text

  /** The characters `escapeHtml` replaces, in the order it replaces them. */
  const Targets: string := "&<>\"'"

  /** The entity each target becomes. */
  const Entities: seq<string> := ["&amp;", "&lt;", "&gt;", "&quot;", "&#039;"]

  /** The replacements `Targets[i..]` applied one after the other. */
  function ReplaceFrom(s: string, i: nat): string
    requires i <= 5
    decreases 5 - i
  {
    if i == 5 then s else ReplaceFrom(ReplaceChar(s, Targets[i], Entities[i]), i + 1)
  }

  /**
   * `escapeHtml`: five global replacements in a row, `&` first so that the `&` of the
   * later entities is not escaped again.
   */
  function EscapeHtml(s: string): string
  {
    ReplaceFrom(s, 0)
  }

  /** The entity a single character becomes. */
  function EscapeChar(c: char): string
  {
    if c == '&' then "&amp;"
    else if c == '<' then "&lt;"
    else if c == '>' then "&gt;"
    else if c == '"' then "&quot;"
    else if c == '\'' then "&#039;"
    else [c]
  }

  /** Character-by-character escaping: the reference the replacement chain is compared with. */
  function EscapeEach(s: string): string
  {
    if s == [] then [] else EscapeChar(s[0]) + EscapeEach(s[1..])
  }

  /** Does `t` begin with one of the five entities `escapeHtml` produces? */
  predicate StartsWithEntity(t: string)
  {
    "&amp;" <= t || "&lt;" <= t || "&gt;" <= t || "&quot;" <= t || "&#039;" <= t
  }

  /** Decoding the five entities, as an HTML parser reads them back into text. */
  function Unescape(t: string): string
  {
    if t == [] then []
    else if "&amp;" <= t then "&" + Unescape(t[5..])
    else if "&lt;" <= t then "<" + Unescape(t[4..])
    else if "&gt;" <= t then ">" + Unescape(t[4..])
    else if "&quot;" <= t then "\"" + Unescape(t[6..])
    else if "&#039;" <= t then "'" + Unescape(t[6..])
    else [t[0]] + Unescape(t[1..])
  }

  lemma {:induction false} ReplaceCharAbsent(s: string, c: char, rep: string)
    requires c !in s
    ensures ReplaceChar(s, c, rep) == s
  {
    if s != [] {
      ReplaceCharAbsent(s[1..], c, rep);
    }
  }

  lemma {:induction false} ReplaceFromAppend(a: string, b: string, i: nat)
    requires i <= 5
    ensures ReplaceFrom(a + b, i) == ReplaceFrom(a, i) + ReplaceFrom(b, i)
    decreases 5 - i
  {
    if i < 5 {
      ReplaceCharAppend(a, b, Targets[i], Entities[i]);
      ReplaceFromAppend(ReplaceChar(a, Targets[i], Entities[i]), ReplaceChar(b, Targets[i], Entities[i]), i + 1);
    }
  }

  lemma ReplaceCharOne(c: char, x: char, rep: string)
    ensures ReplaceChar([c], x, rep) == if c == x then rep else [c]
  {
    assert [c][1..] == [];
  }

  /** Text holding none of the remaining targets passes the remaining replacements unchanged. */
  lemma {:induction false} ReplaceFromKeeps(s: string, i: nat)
    requires i <= 5
    requires forall j :: i <= j < 5 ==> Targets[j] !in s
    ensures ReplaceFrom(s, i) == s
    decreases 5 - i
  {
    if i < 5 {
      ReplaceCharAbsent(s, Targets[i], Entities[i]);
      ReplaceFromKeeps(s, i + 1);
    }
  }

  lemma {:induction false} ReplaceFromOne(c: char, i: nat)
    requires i <= 5
    requires c !in Targets[..i]
    ensures ReplaceFrom([c], i) == EscapeChar(c)
    decreases 5 - i
  {
    if i < 5 {
      ReplaceCharOne(c, Targets[i], Entities[i]);
      if c == Targets[i] {
        ReplaceFromKeeps(Entities[i], i + 1);
      } else {
        assert Targets[..i + 1] == Targets[..i] + [Targets[i]];
        ReplaceFromOne(c, i + 1);
      }
    } else {
      assert Targets[..i] == Targets;
    }
  }

  /** Because `&` is replaced first, the chain of replacements escapes each character on its own. */
  lemma {:induction false} EscapeHtmlPerChar(s: string)
    ensures EscapeHtml(s) == EscapeEach(s)
  {
    if s == [] {
      assert EscapeHtml(s) == [];
    } else {
      EscapeHtmlPerChar(s[1..]);
      ReplaceFromAppend([s[0]], s[1..], 0);
      ReplaceFromOne(s[0], 0);
      assert [s[0]] + s[1..] == s;
    }
  }

  lemma UnescapeEntity(c: char, rest: string)
    ensures Unescape(EscapeChar(c) + rest) == [c] + Unescape(rest)
  {
    if c == '&' {
      UnescapeAmp(rest);
    } else if c == '<' {
      UnescapeLt(rest);
    } else if c == '>' {
      UnescapeGt(rest);
    } else if c == '"' {
      UnescapeQuot(rest);
    } else if c == '\'' {
      UnescapeApos(rest);
    } else {
      UnescapePlain(c, rest);
    }
  }

  lemma UnescapeAmp(rest: string)
    ensures Unescape("&amp;" + rest) == "&" + Unescape(rest)
  {
    var t := "&amp;" + rest;
    assert "&amp;" <= t && t[5..] == rest;
  }

  lemma UnescapeLt(rest: string)
    ensures Unescape("&lt;" + rest) == "<" + Unescape(rest)
  {
    var t := "&lt;" + rest;
    assert t[1] == 'l' && "&lt;" <= t && t[4..] == rest;
  }

  lemma UnescapeGt(rest: string)
    ensures Unescape("&gt;" + rest) == ">" + Unescape(rest)
  {
    var t := "&gt;" + rest;
    assert t[1] == 'g' && "&gt;" <= t && t[4..] == rest;
  }

  lemma UnescapeQuot(rest: string)
    ensures Unescape("&quot;" + rest) == "\"" + Unescape(rest)
  {
    var t := "&quot;" + rest;
    assert t[1] == 'q' && "&quot;" <= t && t[6..] == rest;
  }

  lemma UnescapeApos(rest: string)
    ensures Unescape("&#039;" + rest) == "'" + Unescape(rest)
  {
    var t := "&#039;" + rest;
    assert t[1] == '#' && "&#039;" <= t && t[6..] == rest;
  }

  lemma UnescapePlain(c: char, rest: string)
    requires c !in Targets
    ensures Unescape([c] + rest) == [c] + Unescape(rest)
  {
    var t := [c] + rest;
    assert t[0] == c && t[1..] == rest;
  }

  /** Unescaping recovers the text that was escaped. */
  lemma {:induction false} UnescapeEscape(s: string)
    ensures Unescape(EscapeHtml(s)) == s
  {
    EscapeHtmlPerChar(s);
    UnescapeEach(s);
  }

  lemma {:induction false} UnescapeEach(s: string)
    ensures Unescape(EscapeEach(s)) == s
  {
    if s != [] {
      UnescapeEach(s[1..]);
      UnescapeEntity(s[0], EscapeEach(s[1..]));
    }
  }

  /**
   * Escaped text holds none of `<`, `>`, `"` and `'`, no new line breaks, and every `&`
   * in it begins one of the five entities.
   */
  lemma {:induction false} EscapeHtmlSafe(s: string)
    ensures var r := EscapeHtml(s);
      '<' !in r && '>' !in r && '"' !in r && '\'' !in r &&
      ('\n' in r <==> '\n' in s) &&
      forall i :: 0 <= i < |r| && r[i] == '&' ==> StartsWithEntity(r[i..])
  {
    EscapeHtmlPerChar(s);
    EscapeEachSafe(s);
  }

  lemma EscapeEachSafe(s: string)
    ensures var r := EscapeEach(s);
      '<' !in r && '>' !in r && '"' !in r && '\'' !in r &&
      ('\n' in r <==> '\n' in s) &&
      forall i :: 0 <= i < |r| && r[i] == '&' ==> StartsWithEntity(r[i..])
  {
    EscapeEachNoMarkup(s);
    EscapeEachEntities(s);
  }

  lemma {:induction false} EscapeEachNoMarkup(s: string)
    ensures var r := EscapeEach(s);
      '<' !in r && '>' !in r && '"' !in r && '\'' !in r && ('\n' in r <==> '\n' in s)
  {
    if s != [] {
      EscapeEachNoMarkup(s[1..]);
      EscapeCharNoMarkup(s[0]);
      var e, rest := EscapeChar(s[0]), EscapeEach(s[1..]);
      assert EscapeEach(s) == e + rest;
      assert s == [s[0]] + s[1..];
      assert '\n' in s <==> s[0] == '\n' || '\n' in s[1..];
    }
  }

  lemma EscapeCharNoMarkup(c: char)
    ensures var e := EscapeChar(c);
      '<' !in e && '>' !in e && '"' !in e && '\'' !in e && ('\n' in e <==> c == '\n')
  {
  }

  lemma {:induction false} EscapeEachEntities(s: string)
    ensures forall i :: 0 <= i < |EscapeEach(s)| && EscapeEach(s)[i] == '&' ==> StartsWithEntity(EscapeEach(s)[i..])
  {
    if s != [] {
      EscapeEachEntities(s[1..]);
      var e, rest := EscapeChar(s[0]), EscapeEach(s[1..]);
      var r := e + rest;
      forall i | 0 <= i < |r| && r[i] == '&' ensures StartsWithEntity(r[i..]) {
        if i < |e| {
          EntityStart(s[0], rest, i);
        } else {
          assert rest[i - |e|] == r[i];
          assert r[i..] == rest[i - |e|..];
        }
      }
    }
  }

  lemma EntityStart(c: char, rest: string, i: nat)
    requires i < |EscapeChar(c)| && (EscapeChar(c) + rest)[i] == '&'
    ensures StartsWithEntity((EscapeChar(c) + rest)[i..])
  {
    var e := EscapeChar(c);
    assert e[i] == '&';
    if c in Targets {
      assert forall j :: 0 < j < |e| ==> e[j] != '&';
      assert i == 0;
      assert (e + rest)[i..] == e + rest;
    } else {
      assert false;
    }
  }
}
