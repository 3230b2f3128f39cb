/** What may be added to config text without changing what it says: blanks, blank lines and comments. */
module ConfigLines {
  import opened Exprs
  import opened TomlText
  import opened Config
  import opened Numbers

  // ---- blanks ------------------------------------------------------------------------------

  predicate Blank(s: bytes) {
    forall b | b in s :: b in {9, 10, 11, 12, 13, 32}
  }

  lemma {:induction false} BlanksBefore(a: bytes, s: bytes)
    requires Blank(a)
    ensures TrimStart(a + s) == TrimStart(s)
  {
    if a == [] {
      assert a + s == s;
    } else {
      assert a[0] in a && (forall x | x in a[1..] :: x in a) && (a + s)[1..] == a[1..] + s;
      BlanksBefore(a[1..], s);
    }
  }

  lemma {:induction false} BlanksAfter(s: bytes, b: bytes)
    requires Blank(b)
    ensures TrimEnd(s + b) == TrimEnd(s)
  {
    if b == [] {
      assert s + b == s;
    } else {
      var n := |b| - 1;
      assert b[n] in b && (forall x | x in b[..n] :: x in b) && (s + b)[..|s + b| - 1] == s + b[..n];
      BlanksAfter(s, b[..n]);
    }
  }

  /** Trimming takes exactly the blanks around what is solid. */
  lemma TrimOf(a: bytes, s: bytes, b: bytes)
    requires Blank(a) && Blank(b) && (s == [] || Solid(s))
    ensures Trim(a + s + b) == s
  {
    Assoc(a, s, b);
    BlanksBefore(a, s + b);
    if s == [] {
      assert s + b == b && b + [] == b;
      BlanksBefore(b, []);
    } else {
      assert TrimStart(s + b) == s + b;
      BlanksAfter(s, b);
    }
  }

  lemma {:induction false} StartTrimmed(s: bytes) returns (a: bytes)
    ensures Blank(a) && s == a + TrimStart(s) && (TrimStart(s) == [] || !IsSpace(TrimStart(s)[0]))
  {
    if s != [] && IsSpace(s[0]) {
      a := StartTrimmed(s[1..]);
      a := [s[0]] + a;
    } else {
      a := [];
    }
  }

  lemma {:induction false} EndTrimmed(s: bytes) returns (b: bytes)
    ensures Blank(b) && s == TrimEnd(s) + b && (TrimEnd(s) == [] || !IsSpace(TrimEnd(s)[|TrimEnd(s)| - 1]))
  {
    if s != [] && IsSpace(s[|s| - 1]) {
      b := EndTrimmed(s[..|s| - 1]);
      b := b + [s[|s| - 1]];
    } else {
      b := [];
    }
  }

  lemma Trimmed(s: bytes) returns (a: bytes, b: bytes)
    ensures Blank(a) && Blank(b) && s == a + Trim(s) + b && (Trim(s) == [] || Solid(Trim(s)))
  {
    hide TrimStart, TrimEnd;
    a := StartTrimmed(s);
    var t := TrimStart(s);
    b := EndTrimmed(t);
    Assoc(a, Trim(s), b);
    if Trim(s) != [] { assert t[0] == Trim(s)[0]; }
  }

  /** A blank at the end never matters. */
  lemma TrimBlank(s: bytes, b: bytes)
    requires Blank(b)
    ensures Trim(s + b) == Trim(s)
  {
    hide Trim, Solid;
    var x, y := Trimmed(s);
    assert x + Trim(s) + y + b == x + Trim(s) + (y + b);
    TrimOf(x, Trim(s), y + b);
  }

  // ---- comments ------------------------------------------------------------------------------

  /** Whether the byte at `i` stands inside a string literal. */
  predicate InString(line: bytes, i: nat)
    requires i <= |line|
  {
    End(line[..i], Outside) != Outside
  }

  /** Place `i` holds a comment mark outside strings, and none before it does. */
  predicate FirstMark(line: bytes, i: nat) {
    i < |line| && line[i] == 35 && !InString(line, i) && forall j | 0 <= j < i && line[j] == 35 :: InString(line, j)
  }

  lemma {:induction false} FindIsFirst(s: bytes, st: Lex, stop: byte)
    requires stop != QUOTE
    ensures var i := Find(s, st, stop);
      (i < |s| ==> s[i] == stop && End(s[..i], st) == Outside)
      && forall j | 0 <= j < i && s[j] == stop :: End(s[..j], st) != Outside
  {
    if s != [] && !(st.Outside? && s[0] == stop) {
      var i := Find(s, st, stop);
      FindIsFirst(s[1..], Step(st, s[0]), stop);
      forall j | 0 <= j <= i && j < |s| ensures End(s[..j], st) == if j == 0 then st else End(s[1..][..j - 1], Step(st, s[0])) {
        if j > 0 { assert s[..j][1..] == s[1..][..j - 1] && s[..j][0] == s[0]; }
      }
      forall j | 0 <= j < i && s[j] == stop ensures End(s[..j], st) != Outside {
        if j > 0 { assert s[1..][j - 1] == stop; }
      }
      if i < |s| { assert s[1..][i - 1] == s[i]; }
    }
  }

  lemma OneFirstMark(line: bytes, i: nat)
    requires FirstMark(line, i)
    ensures Find(line, Outside, HASH) == i
  {
    hide Find, End;
    FindIsFirst(line, Outside, HASH);
  }

  /** A line is cut at its first comment mark outside strings; without one it stays, unless a string is left open. */
  lemma StripExactly(line: bytes)
    ensures forall i: nat | FirstMark(line, i) :: StripComment(line) == Some(line[..i])
    ensures (forall i | 0 <= i < |line| && line[i] == 35 :: InString(line, i)) ==>
      StripComment(line) == if InString(line, |line|) then None else Some(line)
    ensures StripComment(line) == None <==> InString(line, |line|) && forall i | 0 <= i < |line| && line[i] == 35 :: InString(line, i)
  {
    hide Find, End;
    FindIsFirst(line, Outside, HASH);
    assert line[..|line|] == line;
    forall i: nat | FirstMark(line, i) ensures i == Find(line, Outside, HASH) { OneFirstMark(line, i); }
  }

  lemma {:induction false} FindFound(a: bytes, b: bytes, st: Lex, stop: byte)
    requires Find(a, st, stop) < |a|
    ensures Find(a + b, st, stop) == Find(a, st, stop)
  {
    if !(st.Outside? && a[0] != QUOTE && a[0] == stop) {
      assert (a + b)[1..] == a[1..] + b;
      FindFound(a[1..], b, Step(st, a[0]), stop);
    }
  }

  /** A comment after anything whose strings are closed, or that has one already, is not part of the line. */
  lemma CommentIgnored(a: bytes, c: bytes)
    requires StripComment(a).Some?
    ensures StripComment(a + ([35] + c)) == StripComment(a)
  {
    var b := [HASH] + c;
    if Find(a, Outside, HASH) < |a| {
      FindFound(a, b, Outside, HASH);
      assert (a + b)[..Find(a, Outside, HASH)] == a[..Find(a, Outside, HASH)];
    } else {
      FindAfter(a, b, HASH);
      assert (a + b)[..|a|] == a;
    }
  }

  lemma QuietCommentIgnored(a: bytes, c: bytes)
    requires Quiet(a, HASH)
    ensures StripComment(a + ([35] + c)) == Some(a)
  {
    CommentIgnored(a, c);
  }

  lemma CommentedLine(d: Doc, a: bytes, c: bytes)
    requires StripComment(a).Some?
    ensures ParseLine(d, a + ([35] + c)) == ParseLine(d, a)
  {
    CommentIgnored(a, c);
  }

  // ---- whole texts ------------------------------------------------------------------------------

  lemma BlankLine(d: Doc, s: bytes)
    requires Blank(s)
    ensures ParseLine(d, s) == Some(d)
  {
    hide Quiet;
    PlainIsQuiet(s, HASH);
    QuietLines(s);
    TrimOf(s, [], []);
    assert s + [] + [] == s;
  }

  lemma QuietLines(s: bytes)
    requires Quiet(s, HASH)
    ensures StripComment(s) == Some(s)
  {
  }

  /** The carriage return before a newline makes no difference to a line. */
  lemma ReturnIgnored(d: Doc, s: bytes)
    ensures ParseLine(d, StripReturn(s)) == ParseLine(d, s)
  {
    if StripReturn(s) != s {
      var a := StripReturn(s);
      assert s == a + [RETURN];
      StripWithReturn(a);
      if StripComment(a).Some? { TrimBlank(StripComment(a).value, [RETURN]); }
    }
  }

  lemma StripWithReturn(a: bytes)
    ensures StripComment(a).None? ==> StripComment(a + [RETURN]).None?
    ensures StripComment(a).Some? ==> StripComment(a + [RETURN]) in {StripComment(a), Some(StripComment(a).value + [RETURN])}
  {
    var i := Find(a, Outside, HASH);
    if i < |a| {
      FindFound(a, [RETURN], Outside, HASH);
      assert (a + [RETURN])[..i] == a[..i];
    } else {
      FindAppend(a, [RETURN], Outside, HASH);
      EndAppend(a, [RETURN], Outside);
      assert [RETURN][1..] == [];
    }
  }

  /** The end of the text, or of a line. */
  predicate Breaks(s: bytes) {
    s == [] || s[0] == NEWLINE
  }

  lemma LineThen(d: Doc, line: bytes, after: bytes)
    requires NEWLINE !in line && Breaks(after)
    ensures ParseLines(Some(d), Lines(line + after)) ==
      ParseLines(ParseLine(d, line), if after == [] then [] else Lines(after[1..]))
  {
    hide ParseLine, StripReturn;
    IndexAfter(line, NEWLINE, after);
    var s := line + after;
    if after == [] {
      assert s == line;
      if line == [] {
        BlankLine(d, line);
      } else {
        assert Lines(s) == [line] && [line][1..] == [];
      }
    } else {
      assert s[..|line|] == line && s[|line| + 1..] == after[1..];
      assert ([StripReturn(line)] + Lines(after[1..]))[1..] == Lines(after[1..]);
      ReturnIgnored(d, line);
    }
  }

  /** Replacing one line by another that reads alike keeps what a text says. */
  lemma LineReplaced(before: bytes, x: bytes, y: bytes, after: bytes)
    requires Flush(before) && Breaks(after) && NEWLINE !in x && NEWLINE !in y && IsAscii(x) && IsAscii(y)
    requires forall d :: ParseLine(d, x) == ParseLine(d, y)
    ensures Decode(before + (x + after)) == Decode(before + (y + after))
  {
    hide ParseLine, Lines, ParseLines, Build;
    var d := ParseLines(Some(EMPTY), Lines(before));
    LinesAppend(before, x + after);
    LinesAppend(before, y + after);
    ParseLinesAppend(Some(EMPTY), Lines(before), Lines(x + after));
    ParseLinesAppend(Some(EMPTY), Lines(before), Lines(y + after));
    if d.Some? {
      LineThen(d.value, x, after);
      LineThen(d.value, y, after);
    } else {
      NoLines(Lines(x + after));
      NoLines(Lines(y + after));
    }
    assert ParseText(before + (x + after)) == ParseText(before + (y + after));
    AsciiParts(before, x, after);
    AsciiParts(before, y, after);
  }

  lemma NoLines(lines: seq<bytes>)
    ensures ParseLines(None, lines) == None
  {
  }

  lemma AsciiParts(a: bytes, b: bytes, c: bytes)
    ensures IsAscii(a + (b + c)) <==> IsAscii(a) && IsAscii(b) && IsAscii(c)
  {
    var s := a + (b + c);
    if IsAscii(s) {
      forall x | x in a ensures x < 0x80 { assert x in s; }
      forall x | x in b ensures x < 0x80 { assert x in b + c && x in s; }
      forall x | x in c ensures x < 0x80 { assert x in b + c && x in s; }
    }
  }

  /**
    * A comment may follow any line of a text whose strings are closed, the
    * text's last line and blank lines included, and changes nothing.
    */
  lemma CommentsIgnored(before: bytes, line: bytes, c: bytes, after: bytes)
    requires Flush(before) && Breaks(after) && NEWLINE !in line && NEWLINE !in c && IsAscii(line) && IsAscii(c)
    requires StripComment(line).Some?
    ensures Decode(before + (line + ([35] + c) + after)) == Decode(before + (line + after))
  {
    hide Decode, ParseLine, StripComment;
    var x := line + ([35] + c);
    forall d ensures ParseLine(d, x) == ParseLine(d, line) { CommentedLine(d, line, c); }
    LineReplaced(before, x, line, after);
  }

  /** So may blanks around it, and a carriage return at its end. */
  lemma BlanksIgnored(before: bytes, a: bytes, line: bytes, b: bytes, after: bytes)
    requires Flush(before) && Breaks(after) && NEWLINE !in line && IsAscii(line)
    requires Blank(a) && Blank(b) && NEWLINE !in a && NEWLINE !in b && (line == [] || Solid(line)) && Quiet(line, HASH)
    ensures Decode(before + (a + line + b + after)) == Decode(before + (line + after))
  {
    hide Decode, ParseLine, Quiet, Solid;
    var x := a + line + b;
    forall d ensures ParseLine(d, x) == ParseLine(d, line) { PaddedLine(d, a, line, b); }
    LineReplaced(before, x, line, after);
  }

  lemma PaddedLine(d: Doc, a: bytes, line: bytes, b: bytes)
    requires Blank(a) && Blank(b) && (line == [] || Solid(line)) && Quiet(line, HASH)
    ensures ParseLine(d, a + line + b) == ParseLine(d, line)
  {
    hide Quiet, Trim, ParseContent, Solid;
    PlainIsQuiet(a, HASH);
    PlainIsQuiet(b, HASH);
    QuietAppend(a, line, HASH);
    QuietAppend(a + line, b, HASH);
    QuietLines(a + line + b);
    QuietLines(line);
    TrimOf(a, line, b);
    TrimOf([], line, []);
    assert [] + line + [] == line;
  }

  /** A blank line may stand anywhere. */
  lemma BlankLinesIgnored(before: bytes, blank: bytes, after: bytes)
    requires Flush(before) && Blank(blank) && NEWLINE !in blank
    ensures Decode(before + (blank + ([NEWLINE] + after))) == Decode(before + after)
  {
    hide ParseLine, Lines, ParseLines, Build;
    var d := ParseLines(Some(EMPTY), Lines(before));
    var tail := [NEWLINE] + after;
    LinesAppend(before, blank + tail);
    LinesAppend(before, after);
    ParseLinesAppend(Some(EMPTY), Lines(before), Lines(blank + tail));
    ParseLinesAppend(Some(EMPTY), Lines(before), Lines(after));
    if d.Some? {
      LineThen(d.value, blank, tail);
      BlankLine(d.value, blank);
      assert tail[1..] == after;
    } else {
      NoLines(Lines(blank + tail));
      NoLines(Lines(after));
    }
    assert ParseText(before + (blank + tail)) == ParseText(before + after);
    AsciiParts(before, blank, tail);
    AsciiParts(before, [], after);
    AsciiParts([], [NEWLINE], after);
    assert [] + after == after && [] + ([NEWLINE] + after) == tail;
  }

  // ---- what a line may say -----------------------------------------------------------------------

  /** Letters, digits, underscore, minus and slash. */
  lemma KeyCharacters(key: bytes)
    ensures ValidKey(key) <==> key != [] && forall b | b in key ::
      var c := b as char; 'A' <= c <= 'Z' || 'a' <= c <= 'z' || '0' <= c <= '9' || c == '_' || c == '-' || c == '/'
  {
    forall b: byte ensures IsKeyByte(b) <==>
      var c := b as char; 'A' <= c <= 'Z' || 'a' <= c <= 'z' || '0' <= c <= '9' || c == '_' || c == '-' || c == '/'
    {
    }
  }

  lemma {:induction false} JoinOfSplit(name: bytes)
    ensures SplitDots(name) != [] && Join(SplitDots(name)) == name
    decreases |name|
  {
    hide IndexOfByte;
    var i := IndexOfByte(name, DOT);
    if i < |name| {
      var rest := SplitDots(name[i + 1..]);
      JoinOfSplit(name[i + 1..]);
      assert SplitDots(name) == [name[..i]] + rest && ([name[..i]] + rest)[1..] == rest;
      assert name == name[..i] + ([DOT] + name[i + 1..]);
    }
  }

  /** Names in a header are separated by dots. */
  lemma {:induction false} DottedNames(path: seq<bytes>, key: bytes)
    requires path != []
    ensures Join([key]) == key && Join([key] + path) == key + ([46] + Join(path))
  {
    assert ([key] + path)[1..] == path;
  }

  /** Only the text of a header with valid names is a header. */
  lemma HeaderExactly(line: bytes, path: seq<bytes>, repeated: bool)
    ensures ParseHeader(line) == Some((path, repeated)) <==>
      ValidPath(path) && line == if repeated then [91, 91] + Join(path) + [93, 93] else [91] + Join(path) + [93]
  {
    hide Join, SplitDots, ValidKey, Trim;
    if ParseHeader(line) == Some((path, repeated)) {
      var n := if repeated then 2 else 1;
      var name := line[n..|line| - n];
      JoinOfSplit(name);
      SegmentsAre(name);
      HeaderPieces(line, repeated);
    }
    if ValidPath(path) {
      hide ValidPath;
      HeaderRoundTrip(path, repeated);
    }
  }

  lemma SegmentsAre(name: bytes)
    requires ParseSegments(name).Some?
    ensures ParseSegments(name).value == SplitDots(name) && forall k | k in SplitDots(name) :: ValidKey(k)
  {
    hide SplitDots, ValidKey, Trim;
  }

  lemma HeaderPieces(line: bytes, repeated: bool)
    requires if repeated then |line| >= 4 && line[0] == line[1] == OPEN && line[|line| - 1] == line[|line| - 2] == CLOSE
      else |line| >= 2 && line[0] == OPEN && line[|line| - 1] == CLOSE
    ensures line == if repeated then [91, 91] + line[2..|line| - 2] + [93, 93] else [91] + line[1..|line| - 1] + [93]
  {
  }

  /** Any blanks around the equals sign. */
  lemma AssignmentSpaced(key: bytes, a: bytes, b: bytes, value: bytes)
    requires ValidKey(key) && Blank(a) && Blank(b) && Solid(value)
    ensures ParseAssignment(key + a + ([61] + (b + value))) == match ParseValue(value)
      case None => None
      case Some(v) => Some(Entry(key, v))
  {
    hide ParseValue, Trim, ValidKey, Quiet, Solid;
    KeyIsPlain(key, EQUALS);
    PlainIsQuiet(a, EQUALS);
    QuietAppend(key, a, EQUALS);
    var right := [61] + (b + value);
    var line := key + a + right;
    FindAfter(key + a, right, EQUALS);
    var p := |key + a|;
    assert line[..p] == key + a && line[p + 1..] == b + value && |line| > p;
    TrimOf([], key, a);
    TrimOf(b, value, []);
    assert [] + key + a == key + a && b + value + [] == b + value;
    SolidIsSome(value);
  }

  lemma PaddedItem(a: bytes, item: bytes, b: bytes)
    requires Blank(a) && Blank(b) && Quiet(item, COMMA) && (item == [] || Solid(item))
    ensures Quiet(a + item + b, COMMA) && Trim(a + item + b) == item
  {
    hide Quiet, Trim, Solid;
    PlainIsQuiet(a, COMMA);
    PlainIsQuiet(b, COMMA);
    QuietAppend(a, item, COMMA);
    QuietAppend(a + item, b, COMMA);
    TrimOf(a, item, b);
  }

  /** Any blanks around an array's items, none of which may be blank. */
  lemma LastItemSpaced(a: bytes, item: bytes, b: bytes)
    requires Blank(a) && Blank(b) && Quiet(item, COMMA) && (item == [] || Solid(item))
    ensures SplitItems(a + item + b) == if item == [] then None else Some([item])
  {
    hide Trim, Solid, Find, End, Blank;
    var first := a + item + b;
    PaddedItem(a, item, b);
    assert first[..|first|] == first;
  }

  lemma ItemSpaced(a: bytes, item: bytes, b: bytes, rest: bytes)
    requires Blank(a) && Blank(b) && Quiet(item, COMMA) && (item == [] || Solid(item))
    ensures SplitItems(a + item + b + ([44] + rest)) ==
      if item == [] || SplitItems(rest).None? then None else Some([item] + SplitItems(rest).value)
  {
    hide Trim, Solid, Quiet, Blank, SplitItems;
    var first := a + item + b;
    PaddedItem(a, item, b);
    SplitAt(first, item, rest);
  }

  lemma SplitAt(first: bytes, item: bytes, rest: bytes)
    requires Quiet(first, COMMA) && Trim(first) == item
    ensures SplitItems(first + ([44] + rest)) ==
      if item == [] || SplitItems(rest).None? then None else Some([item] + SplitItems(rest).value)
  {
    FindAfter(first, [44] + rest, COMMA);
    hide Trim, Quiet, Find, End;
    var s := first + ([44] + rest);
    assert s[..|first|] == first && s[|first| + 1..] == rest && |first| < |s|;
  }

  /** An array is its items between brackets; items are leaves. */
  lemma ArraysRead(inner: bytes)
    ensures ParseValue([91] + inner + [93]) ==
      if Blank(inner) then Some(Arr([]))
      else if SplitItems(inner).None? || ParseItems(SplitItems(inner).value).None? then None
      else Some(Arr(ParseItems(SplitItems(inner).value).value))
  {
    hide Trim, SplitItems, ParseItems;
    var s := [91] + inner + [93];
    assert s[1..|s| - 1] == inner;
    var a, b := Trimmed(inner);
    if Blank(inner) { TrimOf(inner, [], []); assert inner + [] + [] == inner; }
    if Trim(inner) == [] { assert a + [] + b == inner; }
  }

  /** A table, an array or anything else that is no leaf is refused as an item. */
  lemma NestedArraysRefused(item: bytes, items: seq<bytes>)
    requires Solid(item) && item[0] == 91
    ensures ParseItems([item] + items) == None
  {
    TrimSolid(item);
    assert ([item] + items)[0] == item && TrueText()[0] == 116 && FalseText()[0] == 102;
    assert ParseI64(item) == None;
  }

  /** Decimal integers within 64 bits, leading zeros and a signed zero included. */
  lemma IntegersRead(negative: bool, zeros: nat, v: nat)
    ensures var text := (if negative then [45] else []) + (Zeros48(zeros) + DecimalText(v));
      var n := Signed(negative, v);
      ParseValue(text) == if -9223372036854775808 <= n <= 9223372036854775807 then Some(Num(SignedText(n))) else None
  {
    hide DecValue, DecimalText, SignedText;
    var digits := Zeros48(zeros) + DecimalText(v);
    ZerosValue(zeros, v);
    var text := (if negative then [45] else []) + digits;
    if negative { assert text[1..] == digits; } else { assert text == digits; }
    assert TrueText()[0] == 116 && FalseText()[0] == 102;
  }

  function Zeros48(n: nat): (r: bytes)
    ensures |r| == n && forall i | 0 <= i < n :: r[i] == 48
  {
    seq(n, i => 48)
  }

  lemma {:induction false} ZerosValue(zeros: nat, v: nat)
    ensures var s := Zeros48(zeros) + DecimalText(v);
      |s| > 0 && 48 <= s[0] < 58 && IsDigitText(s) && DecValue(TextDigits(s)) == v
  {
    hide DecValue, Pow10;
    DecimalTextFacts(v);
    var s := Zeros48(zeros) + DecimalText(v);
    assert TextDigits(s) == TextDigits(Zeros48(zeros)) + TextDigits(DecimalText(v));
    DecValueSplit(TextDigits(Zeros48(zeros)), TextDigits(DecimalText(v)));
    DecValueZeros(TextDigits(Zeros48(zeros)));
  }

  /** What is neither quoted, bracketed, a truth value nor an integer is no value. */
  lemma OtherValuesRefused(text: bytes)
    requires text == [] || text[0] !in {34, 91}
    requires text != TrueText() && text != FalseText() && !IsIntegerText(text)
    ensures ParseValue(text) == None
  {
  }

  /** The five escapes, and no other. */
  lemma EscapesRead(b: byte, rest: bytes)
    ensures Unescape([92, b] + rest, false) ==
      if b in {34, 92, 110, 114, 116} && Unescape(rest, false).Some?
      then Some([match b case 110 => 10 case 114 => 13 case 116 => 9 case _ => b] + Unescape(rest, false).value) else None
  {
    var s := [92, b] + rest;
    assert s[1..] == [b] + rest && s[1..][1..] == rest;
    assert Unescape(s, false) == Unescape(s[1..], true);
  }

  /** After the closing quote only blanks may follow. */
  lemma StringsRead(t: bytes, after: bytes)
    requires IsAscii(t)
    ensures ParseValue([34] + Escape(t) + ([34] + after)) == if Blank(after) then Some(Value.Str(t)) else None
  {
    hide Trim, Unescape;
    var s := [34] + Escape(t) + ([34] + after);
    assert s[1..] == Escape(t) + ([34] + after);
    UnescapeUpTo(t, after);
    var a, b := Trimmed(after);
    if Blank(after) { TrimOf(after, [], []); assert after + [] + [] == after; }
    if Trim(after) == [] { assert a + [] + b == after; }
  }

  lemma {:induction false} UnescapeUpTo(t: bytes, after: bytes)
    ensures Unescape(Escape(t) + ([34] + after), false) == if Trim(after) == [] then Some(t) else None
  {
    hide Trim, EscapeByte;
    var tail := [34] + after;
    if t == [] {
      assert [] + tail == tail && tail[1..] == after;
    } else {
      Assoc(EscapeByte(t[0]), Escape(t[1..]), tail);
      UnescapeOne(t[0], Escape(t[1..]) + tail);
      UnescapeUpTo(t[1..], after);
      assert t == [t[0]] + t[1..];
    }
  }

  /** A string left open is no value. */
  lemma {:induction false} OpenStringRefused(t: bytes)
    ensures Unescape(Escape(t), false) == None && ParseValue([34] + Escape(t)) == None
  {
    hide EscapeByte;
    assert ([34] + Escape(t))[1..] == Escape(t);
    if t != [] {
      UnescapeOne(t[0], Escape(t[1..]));
      OpenStringRefused(t[1..]);
    }
  }

  // ---- what may not come twice --------------------------------------------------------------------

  lemma LineGrows(d: Doc, line: bytes)
    requires ParseLine(d, line).Some?
    ensures d.seen <= ParseLine(d, line).value.seen
  {
    hide ParseHeader, ParseAssignment, StripComment, Trim, HasKey;
  }

  lemma {:induction false} LinesGrow(d: Doc, lines: seq<bytes>)
    requires ParseLines(Some(d), lines).Some?
    ensures d.seen <= ParseLines(Some(d), lines).value.seen
    decreases |lines|
  {
    hide ParseLine;
    if lines != [] && ParseLine(d, lines[0]).Some? {
      LineGrows(d, lines[0]);
      LinesGrow(ParseLine(d, lines[0]).value, lines[1..]);
    }
  }

  lemma HeaderLine(d: Doc, path: seq<bytes>)
    requires ValidPath(path)
    ensures ParseLine(d, HeaderText(path, false)) ==
      if path in d.seen then None
      else Some(Doc(d.root, d.sections + [Section(path, false, [])], d.seen + {path}))
  {
    hide HeaderText, ParseHeader, StripComment, Trim, ValidPath, Quiet;
    var h := HeaderText(path, false);
    HeaderRoundTrip(path, false);
    QuietLines(h);
    TrimSolid(h);
  }

  lemma ParsedThen(d: Option<Doc>, a: seq<bytes>, line: bytes, b: seq<bytes>)
    ensures ParseLines(d, a + [line] + b) ==
      match ParseLines(d, a)
      case None => None
      case Some(d1) => ParseLines(ParseLine(d1, line), b)
  {
    hide ParseLine;
    ParseLinesAppend(d, a, [line] + b);
    assert a + [line] + b == a + ([line] + b) && ([line] + b)[1..] == b;
    var d1 := ParseLines(d, a);
    if d1.None? { NoLines([line] + b); }
  }

  /** A section that does not repeat may not be opened twice, wherever the two headers stand. */
  lemma SectionTwice(path: seq<bytes>, a: seq<bytes>, b: seq<bytes>, c: seq<bytes>)
    requires ValidPath(path)
    ensures var h := HeaderText(path, false); ParseLines(Some(EMPTY), a + [h] + (b + [h] + c)) == None
  {
    hide ParseLine, HeaderText, ParseLines, ValidPath;
    var h := HeaderText(path, false);
    var rest := b + [h] + c;
    ParsedThen(Some(EMPTY), a, h, rest);
    NoLines(rest);
    NoLines(c);
    if d: Doc :| ParseLines(Some(EMPTY), a) == Some(d) {
      HeaderLine(d, path);
      if d1: Doc :| ParseLine(d, h) == Some(d1) {
        ParsedThen(Some(d1), b, h, c);
        if d2: Doc :| ParseLines(Some(d1), b) == Some(d2) {
          LinesGrow(d1, b);
          HeaderLine(d2, path);
        }
      }
    }
  }

  /** A line that opens no section. */
  predicate NoHeader(line: bytes) {
    match StripComment(line)
    case None => true
    case Some(s) => Trim(s) == [] || Trim(s)[0] != 91
  }

  lemma NoHeaderKeeps(d: Doc, line: bytes, key: bytes)
    requires NoHeader(line) && ParseLine(d, line).Some? && HasKey(Current(d), key)
    ensures HasKey(Current(ParseLine(d, line).value), key)
  {
    hide ParseHeader, ParseAssignment, StripComment, Trim;
    var e :| e in Current(d) && e.key == key;
    var r := ParseLine(d, line).value;
    if r != d { assert e in Current(r); }
  }

  lemma {:induction false} NoHeadersKeep(d: Doc, lines: seq<bytes>, key: bytes)
    requires (forall l | l in lines :: NoHeader(l)) && ParseLines(Some(d), lines).Some? && HasKey(Current(d), key)
    ensures HasKey(Current(ParseLines(Some(d), lines).value), key)
    decreases |lines|
  {
    hide ParseLine, NoHeader, HasKey, Current;
    if lines != [] {
      assert lines[0] in lines && forall l | l in lines[1..] :: l in lines;
      if ParseLine(d, lines[0]).Some? {
        NoHeaderKeeps(d, lines[0], key);
        NoHeadersKeep(ParseLine(d, lines[0]).value, lines[1..], key);
      }
    }
  }

  lemma AssignmentLineAdds(d: Doc, e: Entry)
    requires ValidKey(e.key) && GoodScalar(e.value)
    ensures EncodeValue(e.value).Some?
    ensures var r := ParseLine(d, AssignmentText(e.key, EncodeValue(e.value).value));
      if HasKey(Current(d), e.key) then r == None else r.Some? && Current(r.value) == Current(d) + [e]
  {
    hide AssignmentText, ParseAssignment, StripComment, Trim, ValidKey, GoodScalar, EncodeValue, Quiet, HasKey;
    AssignmentRoundTrip(e);
    var line := AssignmentText(e.key, EncodeValue(e.value).value);
    QuietLines(line);
    TrimSolid(line);
  }

  /** Nor may a key be assigned twice without a section in between. */
  lemma KeyTwice(x: Entry, y: Entry, a: seq<bytes>, b: seq<bytes>, c: seq<bytes>)
    requires ValidKey(x.key) && y.key == x.key && GoodScalar(x.value) && GoodScalar(y.value) && forall l | l in b :: NoHeader(l)
    ensures EncodeValue(x.value).Some? && EncodeValue(y.value).Some?
    ensures var p, q := AssignmentText(x.key, EncodeValue(x.value).value), AssignmentText(y.key, EncodeValue(y.value).value);
      ParseLines(Some(EMPTY), a + [p] + (b + [q] + c)) == None
  {
    hide ParseLine, AssignmentText, ParseLines, ValidKey, GoodScalar, EncodeValue, NoHeader, HasKey, Current;
    AssignmentLineAdds(EMPTY, x);
    AssignmentLineAdds(EMPTY, y);
    var p, q := AssignmentText(x.key, EncodeValue(x.value).value), AssignmentText(y.key, EncodeValue(y.value).value);
    var rest := b + [q] + c;
    ParsedThen(Some(EMPTY), a, p, rest);
    NoLines(rest);
    NoLines(c);
    if d: Doc :| ParseLines(Some(EMPTY), a) == Some(d) {
      AssignmentLineAdds(d, x);
      if d1: Doc :| ParseLine(d, p) == Some(d1) {
        OneMoreKey(Current(d), x);
        ParsedThen(Some(d1), b, q, c);
        if d2: Doc :| ParseLines(Some(d1), b) == Some(d2) {
          NoHeadersKeep(d1, b, x.key);
          AssignmentLineAdds(d2, y);
        }
      }
    }
  }

  lemma OneMoreKey(es: seq<Entry>, e: Entry)
    ensures HasKey(es + [e], e.key)
  {
    assert e in es + [e];
  }

  lemma TwoLines(a: bytes, p: bytes, b: bytes, q: bytes, c: bytes)
    requires Flush(a) && Flush(b) && OneLine(p) && OneLine(q) && Solid(p) && Solid(q)
    ensures Lines(a + (p + [10]) + (b + (q + [10]) + c)) == Lines(a) + [p] + (Lines(b) + [q] + Lines(c))
  {
    hide Lines;
    LinesOne(p);
    LinesOne(q);
    Assoc(a, p + [10], b + (q + [10]) + c);
    LinesAppend(a, p + [10] + (b + (q + [10]) + c));
    LinesAppend(p + [10], b + (q + [10]) + c);
    Assoc(b, q + [10], c);
    LinesAppend(b, q + [10] + c);
    LinesAppend(q + [10], c);
    Assoc(Lines(a), [p], Lines(b) + [q] + Lines(c));
    Assoc(Lines(b), [q], Lines(c));
  }

  /** A text with the same section header twice, or the same key twice in one section, is refused. */
  lemma TwiceRefused(path: seq<bytes>, a: bytes, b: bytes, c: bytes)
    requires ValidPath(path) && Flush(a) && Flush(b)
    ensures var h := HeaderText(path, false) + [10]; Decode(a + h + (b + h + c)) == None
  {
    hide HeaderText, Lines, ParseLines, ValidPath, Build;
    HeaderRoundTrip(path, false);
    var h := HeaderText(path, false);
    TwoLines(a, h, b, h, c);
    SectionTwice(path, Lines(a), Lines(b), Lines(c));
  }

  lemma KeyTwiceRefused(x: Entry, y: Entry, a: bytes, b: bytes, c: bytes)
    requires ValidKey(x.key) && y.key == x.key && GoodScalar(x.value) && GoodScalar(y.value)
    requires Flush(a) && Flush(b) && forall l | l in Lines(b) :: NoHeader(l)
    ensures EncodeValue(x.value).Some? && EncodeValue(y.value).Some?
    ensures var p, q := AssignmentText(x.key, EncodeValue(x.value).value), AssignmentText(y.key, EncodeValue(y.value).value);
      Decode(a + (p + [10]) + (b + (q + [10]) + c)) == None
  {
    hide AssignmentText, Lines, ParseLines, ValidKey, GoodScalar, EncodeValue, Build, NoHeader;
    AssignmentRoundTrip(x);
    AssignmentRoundTrip(y);
    var p, q := AssignmentText(x.key, EncodeValue(x.value).value), AssignmentText(y.key, EncodeValue(y.value).value);
    TwoLines(a, p, b, q, c);
    KeyTwice(x, y, Lines(a), Lines(b), Lines(c));
  }
}
