/**
 * Response formatting (renderer.js lines 4-42 and 445-462): the byte-size label, the
 * line-numbered JSON and XML views, the status colour class and the choice of view by
 * content type.
 */
module Format {
  import opened Wrappers
  import opened Text
  import opened Html
  import opened Json

  // ---------------------------------------------------------------------------
  // formatSize

  const Units: seq<string> := ["B", "KB", "MB", "GB"]

  function Pow1024(k: nat): (p: nat)
    ensures p >= 1
  {
    if k == 0 then 1 else 1024 * Pow1024(k - 1)
  }

  /** The unit `formatSize` settles on: the largest of B, KB, MB, GB that `bytes` reaches. */
  function UnitIndex(bytes: nat): (k: nat)
    ensures k < |Units|
    ensures k == 0 || bytes >= Pow1024(k)
    ensures k < |Units| - 1 ==> bytes < Pow1024(k + 1)
  {
    assert Pow1024(1) == 1024 && Pow1024(2) == 1048576 && Pow1024(3) == 1073741824;
    if bytes < 1024 then 0
    else if bytes < 1048576 then 1
    else if bytes < 1073741824 then 2
    else 3
  }

  /**
   * The integer nearest to `num / den`, halves rounded up: what `toFixed` picks when two
   * candidates are equally close.
   */
  function RoundHalfUp(num: nat, den: nat): (r: nat)
    requires den > 0
    ensures den * (2 * r - 1) <= 2 * num < den * (2 * r + 1)
  {
    (2 * num + den) / (2 * den)
  }

  /** `t / 10` written with one decimal, as `toFixed(1)` writes it: "0.5", "12.0". */
  function OneDecimal(tenths: nat): string
  {
    NatToString(tenths / 10) + "." + [DigitChar(tenths % 10)]
  }

  /** The value, in tenths, of text of the form digits "." digit. */
  function TenthsOf(s: string): nat
    requires |s| >= 3 && s[|s| - 2] == '.' && IsDigit(s[|s| - 1])
    requires forall i :: 0 <= i < |s| - 2 ==> IsDigit(s[i])
  {
    ParseNat(s[..|s| - 2]) * 10 + (s[|s| - 1] as int - 48)
  }

  lemma OneDecimalTenths(t: nat)
    ensures var s := OneDecimal(t);
      |s| >= 3 && s[|s| - 2] == '.' && IsDigit(s[|s| - 1]) &&
      (forall i :: 0 <= i < |s| - 2 ==> IsDigit(s[i])) &&
      TenthsOf(s) == t
  {
    var s := OneDecimal(t);
    assert s[..|s| - 2] == NatToString(t / 10);
    ParseNatToString(t / 10);
  }

  /** The label `formatSize(bytes)` returns. */
  function SizeText(bytes: nat): string
  {
    var k := UnitIndex(bytes);
    OneDecimal(RoundHalfUp(10 * bytes, Pow1024(k))) + " " + Units[k]
  }

  /**
   * `formatSize`: divide by 1024 while the size is at least 1024 and a larger unit is
   * left. Dividing by a power of two is exact in binary floating point, so the running
   * `size` is exactly `bytes / divisor`, and the loop test `size >= 1024` is
   * `bytes >= 1024 * divisor`.
   */
  method FormatSize(bytes: nat) returns (s: string)
    ensures s == SizeText(bytes)
  {
    var divisor := 1;
    var unitIndex := 0;
    while bytes >= 1024 * divisor && unitIndex < |Units| - 1
      invariant unitIndex < |Units| && divisor == Pow1024(unitIndex)
      invariant unitIndex == 0 || bytes >= divisor
    {
      divisor := divisor * 1024;
      unitIndex := unitIndex + 1;
    }
    assert unitIndex == UnitIndex(bytes) by {
      assert Pow1024(1) == 1024 && Pow1024(2) == 1048576 && Pow1024(3) == 1073741824;
    }
    s := OneDecimal(RoundHalfUp(10 * bytes, divisor)) + " " + Units[unitIndex];
  }

  /**
   * What the label means: a decimal number `n` with one decimal, a space and the unit
   * `Units[k]`, where `k` is the largest unit `bytes` reaches and `n` is
   * `bytes / 1024^k` to the nearest tenth, halves rounded up.
   */
  lemma {:induction false} SizeTextMeaning(bytes: nat)
    ensures var s, k := SizeText(bytes), UnitIndex(bytes);
      exists n: string ::
        && s == n + " " + Units[k]
        && |n| >= 3 && n[|n| - 2] == '.' && IsDigit(n[|n| - 1])
        && (forall i :: 0 <= i < |n| - 2 ==> IsDigit(n[i]))
        && Pow1024(k) * (2 * TenthsOf(n) - 1) <= 20 * bytes < Pow1024(k) * (2 * TenthsOf(n) + 1)
  {
    var k := UnitIndex(bytes);
    var t := RoundHalfUp(10 * bytes, Pow1024(k));
    var n := OneDecimal(t);
    OneDecimalTenths(t);
    assert SizeText(bytes) == n + " " + Units[k];
  }

  lemma SizeTextKilobytes()
    ensures SizeText(1536) == "1.5 KB"
  {
    assert UnitIndex(1536) == 1;
    assert Pow1024(1) == 1024;
    assert RoundHalfUp(15360, 1024) == 15;
    assert OneDecimal(15) == "1.5";
  }

  lemma SizeTextBytes()
    ensures SizeText(500) == "500.0 B"
  {
    assert UnitIndex(500) == 0;
    assert RoundHalfUp(5000, 1) == 5000;
    assert NatToString(5) == "5";
    assert NatToString(50) == "50";
    assert NatToString(500) == "500";
    assert OneDecimal(5000) == "500.0";
  }

  /** Just under a mebibyte stays in KB and rounds up to 1024.0: the unit is chosen before rounding. */
  lemma SizeTextRoundsUp()
    ensures SizeText(1048575) == "1024.0 KB"
  {
    assert UnitIndex(1048575) == 1;
    assert Pow1024(1) == 1024;
    assert RoundHalfUp(10485750, 1024) == 10240;
    assert NatToString(1) == "1";
    assert NatToString(10) == "10";
    assert NatToString(102) == "102";
    assert NatToString(1024) == "1024";
    assert OneDecimal(10240) == "1024.0";
  }

  // ---------------------------------------------------------------------------
  // Line numbering shared by formatJSON and formatXML

  /** The markup `formatJSON` and `formatXML` put before line `n`. */
  function LinePrefix(n: nat): string
  {
    "<span class=\"line-number\">" + NatToString(n) + "</span>"
  }

  /** `.map((line, i) => prefix(i + 1) + line)`. */
  function NumberLines(lines: seq<string>): seq<string>
  {
    seq(|lines|, i requires 0 <= i < |lines| => LinePrefix(i + 1) + lines[i])
  }

  /** Removing the line-number markup from numbered lines. */
  function StripLineNumbers(lines: seq<string>): seq<string>
  {
    seq(|lines|, i requires 0 <= i < |lines| =>
      if LinePrefix(i + 1) <= lines[i] then lines[i][|LinePrefix(i + 1)|..] else lines[i])
  }

  lemma StripNumberLines(lines: seq<string>)
    ensures StripLineNumbers(NumberLines(lines)) == lines
  {
    var numbered := NumberLines(lines);
    forall i | 0 <= i < |lines| ensures StripLineNumbers(numbered)[i] == lines[i] {
      assert LinePrefix(i + 1) <= numbered[i];
    }
  }

  /** Numbering adds no line break to a line. */
  lemma NumberLinesNoBreak(lines: seq<string>)
    requires forall i :: 0 <= i < |lines| ==> '\n' !in lines[i]
    ensures forall i :: 0 <= i < |lines| ==> '\n' !in NumberLines(lines)[i]
  {
    forall i | 0 <= i < |lines| ensures '\n' !in NumberLines(lines)[i] {
      var digits := NatToString(i + 1);
      assert '\n' !in digits by {
        forall j | 0 <= j < |digits| ensures digits[j] != '\n' {
          assert IsDigit(digits[j]);
        }
      }
    }
  }

  // ---------------------------------------------------------------------------
  // formatJSON

  /**
   * `formatJSON`, given the text `JSON.stringify(obj, null, 2)` produced: escape it,
   * split it into lines and number them from 1.
   */
  function FormatJson(json: string): string
  {
    Join(NumberLines(SplitStr(EscapeHtml(json), "\n")), "\n")
  }

  /** The output lines of `formatJSON` are the escaped input lines, numbered 1, 2, ... in order. */
  lemma FormatJsonLines(json: string)
    ensures SplitStr(FormatJson(json), "\n") == NumberLines(SplitStr(EscapeHtml(json), "\n"))
  {
    var lines := SplitStr(EscapeHtml(json), "\n");
    SplitCharPieces(EscapeHtml(json), '\n');
    NumberLinesNoBreak(lines);
    SplitJoin(NumberLines(lines), '\n');
  }

  /** Removing the line numbers and unescaping gives back the JSON text. */
  lemma FormatJsonRoundTrip(json: string)
    ensures Unescape(Join(StripLineNumbers(SplitStr(FormatJson(json), "\n")), "\n")) == json
  {
    FormatJsonLines(json);
    StripNumberLines(SplitStr(EscapeHtml(json), "\n"));
    JoinSplit(EscapeHtml(json), "\n");
    UnescapeEscape(json);
  }

  // ---------------------------------------------------------------------------
  // formatXML

  /** The placeholder `formatXML` uses to mark where lines break. */
  const Marker: string := "&newline;"

  /** What `<` and `>` become: the marker goes before every `<` and after every `>`. */
  const OpenMark: string := Marker + "<"
  const CloseMark: string := ">" + Marker

  lemma OpenMarkThen(t: string)
    ensures OpenMark + t == Marker + (['<'] + t)
  {
  }

  lemma CloseMarkThen(t: string)
    ensures CloseMark + t == ['>'] + (Marker + t)
  {
  }

  /** `.replace(/>/g, '>&newline;').replace(/</g, '&newline;<')`. */
  function MarkTags(xml: string): string
  {
    ReplaceChar(ReplaceChar(xml, '>', CloseMark), '<', OpenMark)
  }

  /** `.replace(/&newline;&newline;/g, '&newline;')`. */
  function Collapse(t: string): string
  {
    ReplaceStr(t, Marker + Marker, Marker)
  }

  /** `.split('&newline;')` of the collapsed text. */
  function XmlPieces(xml: string): seq<string>
  {
    SplitStr(Collapse(MarkTags(xml)), Marker)
  }

  /** `.filter(keep).map(f)`: the kept items, transformed, in their order. */
  function FilterMap(xs: seq<string>, keep: string -> bool, f: string -> string): seq<string>
  {
    if xs == [] then []
    else (if keep(xs[0]) then [f(xs[0])] else []) + FilterMap(xs[1..], keep, f)
  }

  /** `line.trim()` is truthy. */
  predicate NonBlank(line: string)
  {
    Trim(line) != []
  }

  function TrimEscape(line: string): string
  {
    EscapeHtml(Trim(line))
  }

  /** `.filter(line => line.trim()).map(line => escapeHtml(line.trim()))`. */
  function XmlLines(pieces: seq<string>): seq<string>
  {
    FilterMap(pieces, NonBlank, TrimEscape)
  }

  /** `formatXML`. */
  function FormatXml(xml: string): string
  {
    Join(NumberLines(XmlLines(XmlPieces(xml))), "\n")
  }

  /** The output lines are numbered 1, 2, ... in order, when no kept piece holds a line break inside. */
  lemma FormatXmlNumbered(xml: string)
    requires XmlLines(XmlPieces(xml)) != []
    requires forall i :: 0 <= i < |XmlLines(XmlPieces(xml))| ==> '\n' !in XmlLines(XmlPieces(xml))[i]
    ensures SplitStr(FormatXml(xml), "\n") == NumberLines(XmlLines(XmlPieces(xml)))
  {
    NumberLinesNoBreak(XmlLines(XmlPieces(xml)));
    SplitJoin(NumberLines(XmlLines(XmlPieces(xml))), '\n');
  }

  /** `FilterMap` never gives more items than it gets. */
  lemma {:induction false} FilterMapLength(xs: seq<string>, keep: string -> bool, f: string -> string)
    ensures |FilterMap(xs, keep, f)| <= |xs|
  {
    if xs != [] {
      FilterMapLength(xs[1..], keep, f);
    }
  }

  /** The item at index `i` comes from a kept item: the one at index `j`. */
  lemma {:induction false} FilterMapAt(xs: seq<string>, keep: string -> bool, f: string -> string, i: nat)
    returns (j: nat)
    requires i < |FilterMap(xs, keep, f)|
    ensures j < |xs| && keep(xs[j]) && FilterMap(xs, keep, f)[i] == f(xs[j])
  {
    var head := if keep(xs[0]) then [f(xs[0])] else [];
    var rest := FilterMap(xs[1..], keep, f);
    assert FilterMap(xs, keep, f) == head + rest;
    if i < |head| {
      j := 0;
    } else {
      var k := FilterMapAt(xs[1..], keep, f, i - |head|);
      assert xs[k + 1] == xs[1..][k];
      j := k + 1;
    }
  }

  /** `FilterMap` gives nothing exactly when no item is kept. */
  lemma {:induction false} FilterMapEmpty(xs: seq<string>, keep: string -> bool, f: string -> string)
    ensures FilterMap(xs, keep, f) == [] <==> forall j :: 0 <= j < |xs| ==> !keep(xs[j])
  {
    if xs != [] {
      FilterMapEmpty(xs[1..], keep, f);
      var head := if keep(xs[0]) then [f(xs[0])] else [];
      assert FilterMap(xs, keep, f) == head + FilterMap(xs[1..], keep, f);
      assert forall j :: 1 <= j < |xs| ==> xs[j] == xs[1..][j - 1];
      assert (forall j :: 0 <= j < |xs| ==> !keep(xs[j])) <==>
             !keep(xs[0]) && forall j :: 0 <= j < |xs[1..]| ==> !keep(xs[1..][j]);
    }
  }

  /** Each kept line is a non-blank piece, trimmed and escaped; no more lines than pieces. */
  lemma XmlLinesFromPieces(pieces: seq<string>)
    ensures |XmlLines(pieces)| <= |pieces|
    ensures forall i :: 0 <= i < |XmlLines(pieces)| ==>
      exists j :: 0 <= j < |pieces| && NonBlank(pieces[j]) && XmlLines(pieces)[i] == TrimEscape(pieces[j])
  {
    var keep: string -> bool := NonBlank;
    var f: string -> string := TrimEscape;
    FilterMapLength(pieces, keep, f);
    assert XmlLines(pieces) == FilterMap(pieces, keep, f);
    forall i | 0 <= i < |XmlLines(pieces)|
      ensures exists j :: 0 <= j < |pieces| && NonBlank(pieces[j]) && XmlLines(pieces)[i] == TrimEscape(pieces[j])
    {
      var j := FilterMapAt(pieces, keep, f, i);
      assert 0 <= j < |pieces| && NonBlank(pieces[j]) && XmlLines(pieces)[i] == TrimEscape(pieces[j]);
    }
  }

  /** `FilterMap` works item by item: it distributes over concatenation. */
  lemma {:induction false} FilterMapAppend(a: seq<string>, b: seq<string>, keep: string -> bool, f: string -> string)
    ensures FilterMap(a + b, keep, f) == FilterMap(a, keep, f) + FilterMap(b, keep, f)
  {
    if a == [] {
      assert a + b == b;
    } else {
      FilterMapAppend(a[1..], b, keep, f);
      assert a + b == [a[0]] + (a[1..] + b) && a == [a[0]] + a[1..];
      FilterMapCons(a[0], a[1..] + b, keep, f);
      FilterMapCons(a[0], a[1..], keep, f);
    }
  }

  lemma FilterMapCons(x: string, xs: seq<string>, keep: string -> bool, f: string -> string)
    ensures FilterMap([x] + xs, keep, f) == (if keep(x) then [f(x)] else []) + FilterMap(xs, keep, f)
  {
    assert ([x] + xs)[0] == x && ([x] + xs)[1..] == xs;
  }

  /**
   * The lines keep the order of the pieces: the lines of two runs of pieces are the lines
   * of the first run followed by those of the second.
   */
  lemma XmlLinesAppend(a: seq<string>, b: seq<string>)
    ensures XmlLines(a + b) == XmlLines(a) + XmlLines(b)
  {
    var keep: string -> bool := NonBlank;
    var f: string -> string := TrimEscape;
    FilterMapAppend(a, b, keep, f);
  }

  /** One piece gives its trimmed, escaped text when it is not blank, and nothing otherwise. */
  lemma XmlLinesOne(piece: string)
    ensures XmlLines([piece]) == if NonBlank(piece) then [TrimEscape(piece)] else []
  {
    var keep: string -> bool := NonBlank;
    var f: string -> string := TrimEscape;
    assert [piece][1..] == [];
    assert FilterMap([piece], keep, f) == (if keep(piece) then [f(piece)] else []) + FilterMap([], keep, f);
  }

  /** No line is left exactly when every piece is blank. */
  lemma XmlLinesEmpty(pieces: seq<string>)
    ensures XmlLines(pieces) == [] <==> forall j :: 0 <= j < |pieces| ==> !NonBlank(pieces[j])
  {
    FilterMapEmpty(pieces, NonBlank, TrimEscape);
  }

  // The segmentation, stated on the input directly.

  /** The piece `c` joins: `c` goes in front of the first piece. */
  function ConsPiece(c: char, pieces: seq<string>): seq<string>
    requires pieces != []
  {
    [[c] + pieces[0]] + pieces[1..]
  }

  /**
   * Where `formatXML` cuts its input: after every `>` and before every `<`, a `><` pair
   * giving a single cut.
   */
  function Segments(s: string): (r: seq<string>)
    ensures r != []
    decreases |s|
  {
    if s == [] then [[]]
    else if s[0] == '<' then [[]] + ConsPiece('<', Segments(s[1..]))
    else if s[0] == '>' then
      if |s| > 1 && s[1] == '<' then ConsPiece('>', Segments(s[1..]))
      else [">"] + Segments(s[1..])
    else ConsPiece(s[0], Segments(s[1..]))
  }

  /** The pieces, glued back together, are the input. */
  lemma {:induction false} SegmentsConcat(s: string)
    ensures Concat(Segments(s)) == s
    decreases |s|
  {
    if s != [] {
      var rest := Segments(s[1..]);
      SegmentsConcat(s[1..]);
      assert Concat(ConsPiece(s[0], rest)) == [s[0]] + Concat(rest) by {
        assert ConsPiece(s[0], rest)[1..] == rest[1..];
        assert Concat(rest) == rest[0] + Concat(rest[1..]);
      }
      if s[0] == '<' {
        assert ([[]] + ConsPiece('<', rest))[1..] == ConsPiece('<', rest);
      } else if s[0] == '>' && !(|s| > 1 && s[1] == '<') {
        assert ([">"] + rest)[1..] == rest;
      }
      assert s == [s[0]] + s[1..];
    }
  }

  /** `<` only at the start of a piece and `>` only at its end. */
  predicate TagShaped(p: string)
  {
    (forall j :: 0 <= j < |p| && p[j] == '<' ==> j == 0) &&
    (forall j :: 0 <= j < |p| && p[j] == '>' ==> j == |p| - 1)
  }

  lemma {:induction false} SegmentsShape(s: string)
    ensures forall i :: 0 <= i < |Segments(s)| ==> TagShaped(Segments(s)[i])
    ensures '<' !in Segments(s)[0]
    ensures s != [] && s[0] == '<' ==> Segments(s)[0] == []
    decreases |s|
  {
    if s != [] {
      var rest := Segments(s[1..]);
      SegmentsShape(s[1..]);
      var first := [s[0]] + rest[0];
      if s[0] != '>' || (|s| > 1 && s[1] == '<') {
        assert TagShaped(first) by {
          forall j | 0 <= j < |first| && first[j] == '>' ensures j == |first| - 1 {
            if j > 0 {
              assert first[j] == rest[0][j - 1];
            }
          }
        }
        assert ConsPiece(s[0], rest) == [first] + rest[1..];
      }
    }
  }

  /** The whole segmentation: every piece is tag-shaped, and they concatenate to the input. */
  lemma XmlSegments(xml: string)
    requires !Contains(xml, Marker)
    ensures XmlPieces(xml) == Segments(xml)
    ensures Concat(XmlPieces(xml)) == xml
    ensures forall i :: 0 <= i < |XmlPieces(xml)| ==> TagShaped(XmlPieces(xml)[i])
  {
    CollapsedMarks(xml);
    SplitCollapsed(xml);
    SegmentsConcat(xml);
    SegmentsShape(xml);
  }

  // How the marks, the collapse and the split act on marker-free input.

  /** The text `formatXML` splits: a marker after every `>` and before every `<`, once per `><` pair. */
  function Collapsed(s: string): string
    decreases |s|
  {
    if s == [] then []
    else if s[0] == '<' then OpenMark + Collapsed(s[1..])
    else if s[0] == '>' then
      if |s| > 1 && s[1] == '<' then ">" + Collapsed(s[1..])
      else CloseMark + Collapsed(s[1..])
    else [s[0]] + Collapsed(s[1..])
  }

  /** The marker occurs nowhere in the text. */
  predicate NoMarker(s: string)
  {
    !Contains(s, Marker)
  }

  lemma NoMarkerTail(s: string)
    requires s != [] && NoMarker(s)
    ensures NoMarker(s[1..]) && !(Marker <= s)
  {
    assert Marker <= s[0..] ==> Contains(s, Marker);
  }

  /** Text free of `<`, `>` and `&`: the marks cannot start inside it. */
  predicate Plain(w: string)
  {
    '<' !in w && '>' !in w && '&' !in w
  }

  function MarkChar(c: char): string
  {
    if c == '>' then CloseMark else if c == '<' then OpenMark else [c]
  }

  lemma MarkTagsCons(s: string)
    requires s != []
    ensures MarkTags(s) == MarkChar(s[0]) + MarkTags(s[1..])
  {
    assert s == [s[0]] + s[1..];
    ReplaceCharAppend([s[0]], s[1..], '>', CloseMark);
    var a := ReplaceChar([s[0]], '>', CloseMark);
    ReplaceCharAppend(a, ReplaceChar(s[1..], '>', CloseMark), '<', OpenMark);
    ReplaceCharOne(s[0], '>', CloseMark);
    if s[0] == '>' {
      ReplaceCharAbsent(a, '<', OpenMark);
    } else {
      ReplaceCharOne(s[0], '<', OpenMark);
    }
  }

  /** Plain text at the front of the marked text was at the front of the input. */
  lemma {:induction false} PlainPrefixMarked(w: string, s: string)
    requires Plain(w) && w <= MarkTags(s)
    ensures w <= s
  {
    if w != [] && s != [] {
      MarkTagsCons(s);
      assert MarkChar(s[0])[0] == w[0];
      assert s[0] != '<' && s[0] != '>';
      PlainPrefixMarked(w[1..], s[1..]);
    }
  }

  lemma {:induction false} PlainPrefixCollapsed(w: string, s: string)
    requires Plain(w) && w <= Collapsed(s)
    ensures w <= s
    decreases |s|
  {
    if w != [] {
      assert s != [];
      assert Collapsed(s)[0] == w[0];
      assert s[0] != '<' && s[0] != '>';
      assert Collapsed(s) == [s[0]] + Collapsed(s[1..]);
      PlainPrefixCollapsed(w[1..], s[1..]);
    }
  }

  /** On marker-free input, the marked text starts with the marker exactly when the input starts with `<`. */
  lemma MarkedStart(s: string)
    requires NoMarker(s)
    ensures Marker <= MarkTags(s) <==> s != [] && s[0] == '<'
  {
    if s == [] {
      assert MarkTags(s) == [];
    } else {
      NoMarkerTail(s);
      MarkTagsCons(s);
      var m := MarkTags(s);
      if s[0] == '<' {
        assert m == Marker + ("<" + MarkTags(s[1..]));
      } else if s[0] == '&' {
        MarkedAmp(s);
      } else {
        assert m[0] == s[0] && Marker[0] == '&';
      }
    }
  }

  /** A marker at the front of the marked text that starts at an `&` was in the input. */
  lemma MarkedAmp(s: string)
    requires s != [] && s[0] == '&'
    ensures Marker <= MarkTags(s) ==> Marker <= s
  {
    if Marker <= MarkTags(s) {
      MarkTagsCons(s);
      assert MarkTags(s) == [s[0]] + MarkTags(s[1..]);
      MarkerTail();
      assert Marker[1..] <= MarkTags(s[1..]);
      PlainPrefixMarked(Marker[1..], s[1..]);
      assert s == ['&'] + s[1..];
    }
  }

  lemma CollapsedStart(s: string)
    requires NoMarker(s)
    ensures Marker <= Collapsed(s) <==> s != [] && s[0] == '<'
  {
    if s == [] {
    } else if s[0] == '<' {
      CollapsedOpenStart(s);
    } else if s[0] == '&' {
      NoMarkerTail(s);
      CollapsedAmp(s);
    } else {
      CollapsedOtherStart(s);
    }
  }

  lemma CollapsedOpenStart(s: string)
    requires s != [] && s[0] == '<'
    ensures Marker <= Collapsed(s)
  {
    assert Collapsed(s) == OpenMark + Collapsed(s[1..]);
    assert OpenMark + Collapsed(s[1..]) == Marker + ("<" + Collapsed(s[1..]));
  }

  lemma CollapsedOtherStart(s: string)
    requires s != [] && s[0] != '<' && s[0] != '&'
    ensures !(Marker <= Collapsed(s))
  {
    MarkerTail();
    assert Collapsed(s)[0] == s[0];
  }

  lemma CollapsedAmp(s: string)
    requires s != [] && s[0] == '&'
    ensures Marker <= Collapsed(s) ==> Marker <= s
  {
    if Marker <= Collapsed(s) {
      MarkerTail();
      var c := Collapsed(s[1..]);
      assert Collapsed(s) == ['&'] + c;
      assert Marker[1..] <= c;
      PlainPrefixCollapsed(Marker[1..], s[1..]);
      assert s == ['&'] + s[1..];
    }
  }

  /** The marker is `&` followed by plain text. */
  lemma MarkerTail()
    ensures Marker == ['&'] + Marker[1..] && Plain(Marker[1..])
  {
  }

  lemma ReplaceStrStep(s: string, pat: string, rep: string)
    requires pat != [] && s != [] && !(pat <= s)
    ensures ReplaceStr(s, pat, rep) == [s[0]] + ReplaceStr(s[1..], pat, rep)
  {
    if |s| < |pat| {
      assert s == [s[0]] + s[1..];
    }
  }

  lemma {:induction false} ReplaceStrPlain(w: string, x: string, pat: string, rep: string)
    requires pat != [] && pat[0] == '&' && '&' !in w
    ensures ReplaceStr(w + x, pat, rep) == w + ReplaceStr(x, pat, rep)
  {
    if w != [] {
      assert (w + x)[0] == w[0] != pat[0];
      ReplaceStrStep(w + x, pat, rep);
      assert (w + x)[1..] == w[1..] + x;
      ReplaceStrPlain(w[1..], x, pat, rep);
    } else {
      assert w + x == x;
    }
  }

  lemma SplitStrStep(s: string, sep: string)
    requires sep != [] && s != [] && !(sep <= s)
    ensures SplitStr(s, sep) == ConsPiece(s[0], SplitStr(s[1..], sep))
  {
    if |s| < |sep| {
      assert s == [s[0]] + s[1..];
    }
  }

  lemma {:induction false} SplitStrPlain(w: string, x: string, sep: string)
    requires sep != [] && sep[0] == '&' && '&' !in w
    ensures SplitStr(w + x, sep) == [w + SplitStr(x, sep)[0]] + SplitStr(x, sep)[1..]
  {
    if w != [] {
      assert (w + x)[0] == w[0] != sep[0];
      SplitStrStep(w + x, sep);
      assert (w + x)[1..] == w[1..] + x;
      SplitStrPlain(w[1..], x, sep);
      assert [w[0]] + (w[1..] + SplitStr(x, sep)[0]) == w + SplitStr(x, sep)[0];
    } else {
      assert w + x == x;
      assert w + SplitStr(x, sep)[0] == SplitStr(x, sep)[0];
      assert [SplitStr(x, sep)[0]] + SplitStr(x, sep)[1..] == SplitStr(x, sep);
    }
  }

  /** A character other than `&` cannot start the doubled marker, so it passes the collapse. */
  lemma CollapseCons(c: char, u: string)
    requires c != '&'
    ensures Collapse([c] + u) == [c] + Collapse(u)
  {
    var x := [c] + u;
    var mm := Marker + Marker;
    assert x[0] == c && mm[0] == '&';
    ReplaceStrStep(x, mm, Marker);
    assert x[1..] == u;
  }

  /** A doubled marker becomes one. */
  lemma CollapseDouble(u: string)
    ensures Collapse(Marker + (Marker + u)) == Marker + Collapse(u)
  {
    var mm := Marker + Marker;
    var x := Marker + (Marker + u);
    assert x == mm + u;
    assert x[|mm|..] == u;
  }

  lemma DoubleMarkerShift(u: string)
    ensures Marker + Marker <= Marker + u ==> Marker <= u
  {
    if Marker + Marker <= Marker + u {
      var k := |Marker|;
      assert (Marker + Marker)[k..] == Marker;
      assert (Marker + u)[k..] == u;
      assert (Marker + u)[k..2 * k] == (Marker + Marker)[k..2 * k];
    }
  }

  /** A single marker that no second one follows passes the collapse. */
  lemma CollapseSingle(u: string)
    requires !(Marker <= u)
    ensures Collapse(Marker + u) == Marker + Collapse(u)
  {
    var mm := Marker + Marker;
    var w := Marker[1..];
    MarkerTail();
    var x := ['&'] + (w + u);
    assert x == Marker + u;
    DoubleMarkerShift(u);
    assert mm[0] == '&' && !(mm <= x);
    ReplaceStrStep(x, mm, Marker);
    assert x[1..] == w + u;
    ReplaceStrPlain(w, u, mm, Marker);
  }

  /** The marks put before a `<` pass the collapse unchanged. */
  lemma CollapseOpen(t: string)
    ensures Collapse(OpenMark + t) == OpenMark + Collapse(t)
  {
    assert OpenMark + t == Marker + ("<" + t);
    assert !(Marker <= "<" + t) by { assert Marker[0] == '&'; }
    CollapseSingle("<" + t);
    CollapseCons('<', t);
  }

  /** The two marks of a `><` pair become one. */
  lemma CollapsePair(t: string)
    ensures Collapse(CloseMark + (OpenMark + t)) == ">" + (OpenMark + Collapse(t))
  {
    assert CloseMark + (OpenMark + t) == ">" + (Marker + (Marker + ("<" + t)));
    CollapseCons('>', Marker + (Marker + ("<" + t)));
    CollapseDouble("<" + t);
    CollapseCons('<', t);
  }

  /** The mark after a `>` that no `<` follows passes the collapse unchanged. */
  lemma CollapseClose(t: string)
    requires !(Marker <= t)
    ensures Collapse(CloseMark + t) == CloseMark + Collapse(t)
  {
    assert CloseMark + t == ">" + (Marker + t);
    CollapseCons('>', Marker + t);
    CollapseSingle(t);
  }

  /** The collapse of `&newline;&newline;` merges exactly the two marks of each `><` pair. */
  lemma {:induction false} CollapsedMarks(s: string)
    requires NoMarker(s)
    ensures Collapse(MarkTags(s)) == Collapsed(s)
    decreases |s|
  {
    if s == [] {
      assert MarkTags(s) == [];
    } else {
      NoMarkerTail(s);
      CollapsedMarks(s[1..]);
      if s[0] == '<' {
        CollapsedMarksOpen(s);
      } else if s[0] == '>' && |s| > 1 && s[1] == '<' {
        NoMarkerTail(s[1..]);
        CollapsedMarks(s[2..]);
        CollapsedMarksPair(s);
      } else if s[0] == '>' {
        CollapsedMarksClose(s);
      } else {
        CollapsedMarksPlain(s);
      }
    }
  }

  lemma CollapsedMarksOpen(s: string)
    requires s != [] && s[0] == '<'
    requires Collapse(MarkTags(s[1..])) == Collapsed(s[1..])
    ensures Collapse(MarkTags(s)) == Collapsed(s)
  {
    MarkTagsCons(s);
    CollapseOpen(MarkTags(s[1..]));
  }

  lemma CollapsedMarksPair(s: string)
    requires |s| > 1 && s[0] == '>' && s[1] == '<'
    requires Collapse(MarkTags(s[2..])) == Collapsed(s[2..])
    ensures Collapse(MarkTags(s)) == Collapsed(s)
  {
    var r := s[1..];
    MarkTagsCons(s);
    MarkTagsCons(r);
    assert r[1..] == s[2..];
    CollapsePair(MarkTags(s[2..]));
  }

  lemma CollapsedMarksClose(s: string)
    requires s != [] && s[0] == '>' && !(|s| > 1 && s[1] == '<')
    requires NoMarker(s[1..])
    requires Collapse(MarkTags(s[1..])) == Collapsed(s[1..])
    ensures Collapse(MarkTags(s)) == Collapsed(s)
  {
    MarkTagsCons(s);
    MarkedStart(s[1..]);
    CollapseClose(MarkTags(s[1..]));
  }

  /** A character other than `<` and `>` passes the marks and the collapse unchanged. */
  lemma CollapsedMarksPlain(s: string)
    requires NoMarker(s) && s != [] && s[0] != '<' && s[0] != '>'
    requires Collapse(MarkTags(s[1..])) == Collapsed(s[1..])
    ensures Collapse(MarkTags(s)) == Collapsed(s)
  {
    var mm := Marker + Marker;
    MarkTagsCons(s);
    MarkedStart(s);
    assert !(mm <= MarkTags(s));
    ReplaceStrStep(MarkTags(s), mm, Marker);
    assert MarkTags(s)[1..] == MarkTags(s[1..]);
  }

  /** Splitting the collapsed text at the marker yields the segments. */
  lemma {:induction false} SplitCollapsed(s: string)
    requires NoMarker(s)
    ensures SplitStr(Collapsed(s), Marker) == Segments(s)
    decreases |s|
  {
    if s != [] {
      NoMarkerTail(s);
      SplitCollapsed(s[1..]);
      if s[0] == '<' {
        SplitCollapsedOpen(s);
      } else if s[0] == '>' && |s| > 1 && s[1] == '<' {
        SplitCollapsedPair(s);
      } else if s[0] == '>' {
        SplitCollapsedClose(s);
      } else {
        SplitCollapsedPlain(s);
      }
    }
  }

  /** A character other than `&` cannot start the marker: it joins the first piece. */
  lemma SplitCons(c: char, u: string)
    requires c != '&'
    ensures SplitStr([c] + u, Marker) == ConsPiece(c, SplitStr(u, Marker))
  {
    var x := [c] + u;
    assert x[0] == c && Marker[0] == '&';
    SplitStrStep(x, Marker);
    assert x[1..] == u;
  }

  /** A marker at the front cuts off an empty piece. */
  lemma SplitMarker(u: string)
    ensures SplitStr(Marker + u, Marker) == [[]] + SplitStr(u, Marker)
  {
    assert (Marker + u)[|Marker|..] == u;
  }

  lemma SplitCollapsedOpen(s: string)
    requires s != [] && s[0] == '<'
    requires SplitStr(Collapsed(s[1..]), Marker) == Segments(s[1..])
    ensures SplitStr(Collapsed(s), Marker) == Segments(s)
  {
    var c := Collapsed(s[1..]);
    var y := ['<'] + c;
    SplitMarker(y);
    SplitCons('<', c);
    OpenMarkThen(c);
    assert Segments(s) == [[]] + ConsPiece('<', Segments(s[1..]));
  }

  lemma SplitCollapsedPair(s: string)
    requires |s| > 1 && s[0] == '>' && s[1] == '<'
    requires SplitStr(Collapsed(s[1..]), Marker) == Segments(s[1..])
    ensures SplitStr(Collapsed(s), Marker) == Segments(s)
  {
    var c := Collapsed(s[1..]);
    assert Collapsed(s) == ">" + c;
    SplitCons('>', c);
  }

  lemma SplitCollapsedClose(s: string)
    requires s != [] && s[0] == '>' && !(|s| > 1 && s[1] == '<')
    requires SplitStr(Collapsed(s[1..]), Marker) == Segments(s[1..])
    ensures SplitStr(Collapsed(s), Marker) == Segments(s)
  {
    var c := Collapsed(s[1..]);
    var x := SplitStr(c, Marker);
    var y := Marker + c;
    SplitMarker(c);
    SplitCons('>', y);
    var p: seq<string> := [[]] + x;
    assert p[0] == [] && p[1..] == x;
    assert ['>'] + p[0] == ">";
    CloseMarkThen(c);
    assert Segments(s) == [">"] + Segments(s[1..]);
  }

  lemma SplitCollapsedPlain(s: string)
    requires NoMarker(s) && s != [] && s[0] != '<' && s[0] != '>'
    requires SplitStr(Collapsed(s[1..]), Marker) == Segments(s[1..])
    ensures SplitStr(Collapsed(s), Marker) == Segments(s)
  {
    CollapsedStart(s);
    assert Collapsed(s) == [s[0]] + Collapsed(s[1..]);
    SplitStrStep(Collapsed(s), Marker);
    assert Collapsed(s)[1..] == Collapsed(s[1..]);
  }

  // ---------------------------------------------------------------------------
  // Status colour classes (renderer.js lines 157 and 391-394)

  datatype StatusClass = Status2xx | Status3xx | Status4xx | Status5xx

  /** The ternary chain: 5xx from 500 up, then 4xx, then 3xx, and everything lower is 2xx. */
  function ClassifyStatus(code: int): (c: StatusClass)
    ensures c == Status5xx <==> code >= 500
    ensures c == Status4xx <==> 400 <= code < 500
    ensures c == Status3xx <==> 300 <= code < 400
    ensures c == Status2xx <==> code < 300
  {
    if code >= 500 then Status5xx
    else if code >= 400 then Status4xx
    else if code >= 300 then Status3xx
    else Status2xx
  }

  /**
   * The history list's version, on `item.response?.status`: a missing response compares
   * as `undefined`, which no comparison accepts, so it is shown as 2xx.
   */
  function ClassifyHistoryStatus(status: Option<int>): (c: StatusClass)
    ensures status.None? ==> c == Status2xx
    ensures status.Some? ==> c == ClassifyStatus(status.value)
  {
    match status
    case None => Status2xx
    case Some(code) => ClassifyStatus(code)
  }

  // ---------------------------------------------------------------------------
  // Choice of view by content type (renderer.js lines 445-462)

  datatype View = JsonView | HtmlView | XmlView | TextView

  datatype RenderedBody = RenderedBody(view: View, content: string)

  predicate IsJsonType(contentType: string)
  {
    Contains(contentType, "application/json")
  }

  predicate IsHtmlType(contentType: string)
  {
    Contains(contentType, "text/html")
  }

  predicate IsXmlType(contentType: string)
  {
    Contains(contentType, "text/xml") || Contains(contentType, "application/xml")
  }

  /**
   * The body view: JSON first, then HTML, then XML, then plain text. A body that does
   * not parse as JSON falls back to escaped plain text; nothing else can fail.
   */
  function RenderBody(contentType: string, body: string,
                      parse: string -> Option<Json>, stringify: Json -> string): (r: RenderedBody)
    ensures r.view == JsonView <==> IsJsonType(contentType) && parse(body).Some?
    ensures r.view == HtmlView <==> !IsJsonType(contentType) && IsHtmlType(contentType)
    ensures r.view == XmlView <==>
      !IsJsonType(contentType) && !IsHtmlType(contentType) && IsXmlType(contentType)
    ensures r.view == JsonView ==>
      Unescape(Join(StripLineNumbers(SplitStr(r.content, "\n")), "\n")) == stringify(parse(body).value)
    ensures r.view == JsonView ==> r.content == FormatJson(stringify(parse(body).value))
    ensures r.view == XmlView ==> r.content == FormatXml(body)
    ensures r.view in {HtmlView, TextView} ==> r.content == EscapeHtml(body)
    ensures r.view in {HtmlView, TextView} ==>
      Unescape(r.content) == body && '<' !in r.content && '>' !in r.content
  {
    if IsJsonType(contentType) then
      match parse(body)
      case Some(value) =>
        FormatJsonRoundTrip(stringify(value));
        RenderedBody(JsonView, FormatJson(stringify(value)))
      case None =>
        UnescapeEscape(body);
        EscapeHtmlSafe(body);
        RenderedBody(TextView, EscapeHtml(body))
    else if IsHtmlType(contentType) then
      UnescapeEscape(body);
      EscapeHtmlSafe(body);
      RenderedBody(HtmlView, EscapeHtml(body))
    else if IsXmlType(contentType) then
      RenderedBody(XmlView, FormatXml(body))
    else
      UnescapeEscape(body);
      EscapeHtmlSafe(body);
      RenderedBody(TextView, EscapeHtml(body))
  }

  /** The CSS class of the element each view is placed in. */
  function ViewClass(v: View): string
  {
    match v
    case JsonView => "json-response"
    case HtmlView => "html-response"
    case XmlView => "xml-response"
    case TextView => "text-response"
  }

  /** The markup written into the response body element: the size line, then the view. */
  function ResponseBodyHtml(sizeLabel: string, body: RenderedBody): string
  {
    "<div class=\"response-size\">Size: " + sizeLabel + "</div>" +
    "<div class=\"" + ViewClass(body.view) + "\">" + body.content + "</div>"
  }
}
