/**
 * `json.dumps` and `json.loads` on lists of strings, and the tag filter of the SQLite adapter:
 * a LIKE over the printed JSON that stands in for set membership.
 */
module JsonText {
  import opened Wrappers
  import opened Like

  const QUOTE := '"'

  /** Printed as itself by `json.dumps`: printable ASCII except the quote and the backslash. */
  predicate PlainChar(c: char) { ' ' <= c <= '~' && c != QUOTE && c != '\\' }

  predicate Plain(s: string) { forall i :: 0 <= i < |s| ==> PlainChar(s[i]) }

  function HexDigit(d: int): char
    requires 0 <= d < 16
  {
    if d < 10 then ('0' as int + d) as char else ('a' as int + d - 10) as char
  }

  function Hex4(v: int): string
    requires 0 <= v < 0x1_0000
  {
    [HexDigit(v / 16 / 16 / 16), HexDigit(v / 16 / 16 % 16), HexDigit(v / 16 % 16), HexDigit(v % 16)]
  }

  function UnicodeEscape(v: int): (r: string)
    requires 0 <= v < 0x1_0000
    ensures |r| == 6
  {
    "\\u" + Hex4(v)
  }

  /** The letter of a two-character escape. */
  function ShortEscape(c: char): Option<char> {
    if c == QUOTE || c == '\\' then Some(c)
    else if c == '\n' then Some('n')
    else if c == '\r' then Some('r')
    else if c == '\t' then Some('t')
    else if c == '\U{000C}' then Some('f')
    else if c == '\U{0008}' then Some('b')
    else None
  }

  function EscapeChar(c: char): (r: string)
    ensures if PlainChar(c) then r == [c] else r != "" && r[0] == '\\'
    ensures c != QUOTE ==> QUOTE !in r
  {
    if PlainChar(c) then [c]
    else if ShortEscape(c).Some? then ['\\', ShortEscape(c).value]
    else if c as int < 0x1_0000 then UnicodeEscape(c as int)
    else UnicodeEscape(0xD800 + (c as int - 0x1_0000) / 0x400) + UnicodeEscape(0xDC00 + (c as int - 0x1_0000) % 0x400)
  }

  function EscapeText(s: string): string {
    if s == "" then "" else EscapeChar(s[0]) + EscapeText(s[1..])
  }

  function Quoted(s: string): string { "\"" + EscapeText(s) + "\"" }

  function DumpItems(items: seq<string>): string {
    if items == [] then ""
    else if |items| == 1 then Quoted(items[0])
    else Quoted(items[0]) + ", " + DumpItems(items[1..])
  }

  /** `json.dumps(items)` for a list of strings. */
  function Dumps(items: seq<string>): string { "[" + DumpItems(items) + "]" }

  // ---------- json.loads ----------

  function HexValue(c: char): Option<int> {
    if '0' <= c <= '9' then Some(c as int - '0' as int)
    else if 'a' <= c <= 'f' then Some(c as int - 'a' as int + 10)
    else None
  }

  function HexNumber(s: string): (r: Option<int>)
    ensures r.Some? ==> |s| >= 4 && 0 <= r.value < 0x1_0000
  {
    if |s| < 4 then None else
      var a, b, c, d := HexValue(s[0]), HexValue(s[1]), HexValue(s[2]), HexValue(s[3]);
      if a.Some? && b.Some? && c.Some? && d.Some?
      then Some(a.value * 0x1000 + b.value * 0x100 + c.value * 16 + d.value) else None
  }

  function ShortUnescape(letter: char): Option<char> {
    if letter == QUOTE || letter == '\\' || letter == '/' then Some(letter)
    else if letter == 'n' then Some('\n')
    else if letter == 'r' then Some('\r')
    else if letter == 't' then Some('\t')
    else if letter == 'f' then Some('\U{000C}')
    else if letter == 'b' then Some('\U{0008}')
    else None
  }

  /** One character of a JSON string body and how many characters of text it took. */
  function ScanChar(s: string): (r: Option<(char, nat)>)
    requires s != ""
    ensures r.Some? ==> 1 <= r.value.1 <= |s|
  {
    if s[0] != '\\' then Some((s[0], 1))
    else if |s| < 2 then None
    else if ShortUnescape(s[1]).Some? then Some((ShortUnescape(s[1]).value, 2))
    else if s[1] != 'u' then None
    else
      var v := HexNumber(s[2..]);
      if v.None? then None
      else if v.value < 0xD800 || 0xE000 <= v.value then Some((v.value as char, 6))
      else if v.value < 0xDC00 && |s| >= 12 && s[6] == '\\' && s[7] == 'u' then
        var low := HexNumber(s[8..]);
        if low.Some? && 0xDC00 <= low.value < 0xE000
        then Some(((0x1_0000 + (v.value - 0xD800) * 0x400 + (low.value - 0xDC00)) as char, 12)) else None
      else None
  }

  /** The string up to its closing quote, and the text after that quote. */
  function ScanString(s: string): (r: Option<(string, string)>)
    ensures r.Some? ==> |r.value.1| < |s|
    decreases |s|
  {
    if s == "" then None
    else if s[0] == QUOTE then Some(("", s[1..]))
    else
      var c := ScanChar(s);
      if c.None? then None else
      var rest := ScanString(s[c.value.1..]);
      if rest.None? then None else Some(([c.value.0] + rest.value.0, rest.value.1))
  }

  function LoadItems(s: string): Option<seq<string>>
    decreases |s|
  {
    if s == "" || s[0] != QUOTE then None else
    var item := ScanString(s[1..]);
    if item.None? then None
    else if item.value.1 == "]" then Some([item.value.0])
    else if |item.value.1| >= 2 && item.value.1[..2] == ", " then
      var rest := LoadItems(item.value.1[2..]);
      if rest.None? then None else Some([item.value.0] + rest.value)
    else None
  }

  /** `json.loads` on the text of a list of strings. */
  function Loads(s: string): Option<seq<string>> {
    if s == "[]" then Some([])
    else if s != "" && s[0] == '[' then LoadItems(s[1..])
    else None
  }

  lemma HexDigitRoundTrip(d: int)
    requires 0 <= d < 16
    ensures HexValue(HexDigit(d)) == Some(d)
  {
  }

  lemma HexRoundTrip(v: int, rest: string)
    requires 0 <= v < 0x1_0000
    ensures HexNumber(Hex4(v) + rest) == Some(v)
  {
    var a, b, c, d := v / 16 / 16 / 16, v / 16 / 16 % 16, v / 16 % 16, v % 16;
    HexDigitRoundTrip(a);
    HexDigitRoundTrip(b);
    HexDigitRoundTrip(c);
    HexDigitRoundTrip(d);
    var s := Hex4(v) + rest;
    assert s[0] == HexDigit(a) && s[1] == HexDigit(b) && s[2] == HexDigit(c) && s[3] == HexDigit(d);
    assert HexNumber(s) == Some(a * 0x1000 + b * 0x100 + c * 16 + d);
  }

  lemma ScanUnicodeEscape(v: int, rest: string)
    requires 0 <= v < 0xD800 || 0xE000 <= v < 0x1_0000
    ensures ScanChar(UnicodeEscape(v) + rest) == Some((v as char, 6))
  {
    HexRoundTrip(v, rest);
    assert (UnicodeEscape(v) + rest)[2..] == Hex4(v) + rest;
  }

  lemma ScanSurrogatePair(hi: int, lo: int, rest: string)
    requires 0xD800 <= hi < 0xDC00 && 0xDC00 <= lo < 0xE000
    ensures ScanChar(UnicodeEscape(hi) + UnicodeEscape(lo) + rest)
            == Some(((0x1_0000 + (hi - 0xD800) * 0x400 + (lo - 0xDC00)) as char, 12))
  {
    var tail := UnicodeEscape(lo) + rest;
    var s := UnicodeEscape(hi) + UnicodeEscape(lo) + rest;
    assert s[2..] == Hex4(hi) + tail;
    HexRoundTrip(hi, tail);
    assert s[6] == '\\' && s[7] == 'u';
    assert s[8..] == Hex4(lo) + rest;
    HexRoundTrip(lo, rest);
  }

  lemma ScanShort(c: char, rest: string)
    requires PlainChar(c) || ShortEscape(c).Some?
    ensures ScanChar(EscapeChar(c) + rest) == Some((c, |EscapeChar(c)|))
  {
    var s := EscapeChar(c) + rest;
    if PlainChar(c) {
      assert s[0] == c;
    } else {
      assert s[0] == '\\' && s[1] == ShortEscape(c).value;
      assert ShortUnescape(ShortEscape(c).value) == Some(c);
    }
  }

  lemma AstralText(c: char) returns (hi: int, lo: int)
    requires 0x1_0000 <= c as int
    ensures 0xD800 <= hi < 0xDC00 && 0xDC00 <= lo < 0xE000
    ensures EscapeChar(c) == UnicodeEscape(hi) + UnicodeEscape(lo)
    ensures 0x1_0000 + (hi - 0xD800) * 0x400 + (lo - 0xDC00) == c as int
  {
    var v := c as int - 0x1_0000;
    hi, lo := 0xD800 + v / 0x400, 0xDC00 + v % 0x400;
  }

  lemma ScanAstral(c: char, rest: string)
    requires 0x1_0000 <= c as int
    ensures ScanChar(EscapeChar(c) + rest) == Some((c, |EscapeChar(c)|))
  {
    var hi, lo := AstralText(c);
    ScanSurrogatePair(hi, lo, rest);
  }

  lemma ScanBasic(c: char, rest: string)
    requires !PlainChar(c) && ShortEscape(c).None? && c as int < 0x1_0000
    ensures ScanChar(EscapeChar(c) + rest) == Some((c, |EscapeChar(c)|))
  {
    assert EscapeChar(c) == UnicodeEscape(c as int);
    ScanUnicodeEscape(c as int, rest);
  }

  lemma ScanEscaped(c: char, rest: string)
    ensures ScanChar(EscapeChar(c) + rest) == Some((c, |EscapeChar(c)|))
  {
    if PlainChar(c) || ShortEscape(c).Some? {
      ScanShort(c, rest);
    } else if c as int < 0x1_0000 {
      ScanBasic(c, rest);
    } else {
      ScanAstral(c, rest);
    }
  }

  lemma {:induction false} ScanEscapedText(t: string, rest: string)
    ensures ScanString(EscapeText(t) + "\"" + rest) == Some((t, rest))
  {
    if t == "" {
      ScanClosingQuote(rest);
    } else {
      hide EscapeChar, ScanChar, ScanString;
      var tail := EscapeText(t[1..]) + "\"" + rest;
      assert EscapeText(t) + "\"" + rest == EscapeChar(t[0]) + tail;
      ScanFirst(t[0], tail);
      ScanEscapedText(t[1..], rest);
      assert t == [t[0]] + t[1..];
    }
  }

  lemma ScanClosingQuote(rest: string)
    ensures ScanString("" + "\"" + rest) == Some(("", rest))
  {
    var s := "" + "\"" + rest;
    assert s[1..] == rest;
  }

  lemma ScanFirst(c: char, tail: string)
    ensures ScanString(EscapeChar(c) + tail) ==
              match ScanString(tail) case None => None case Some(r) => Some(([c] + r.0, r.1))
  {
    hide ScanChar;
    var s := EscapeChar(c) + tail;
    ScanEscaped(c, tail);
    assert s[|EscapeChar(c)|..] == tail && s[0] != QUOTE;
  }

  lemma ScanQuoted(item: string, rest: string)
    ensures (Quoted(item) + rest)[0] == QUOTE
    ensures ScanString((Quoted(item) + rest)[1..]) == Some((item, rest))
  {
    ScanEscapedText(item, rest);
    DropFirst("\"", EscapeText(item), "\"", rest);
  }

  lemma DropFirst(a: string, b: string, c: string, d: string)
    ensures (a + b + c + d)[|a|..] == b + c + d
  {
  }

  lemma LoadLastItem(item: string)
    ensures LoadItems(Quoted(item) + "]") == Some([item])
  {
    ScanQuoted(item, "]");
  }

  lemma LoadMoreItems(item: string, tail: string, items: seq<string>)
    requires LoadItems(tail) == Some(items)
    ensures LoadItems(Quoted(item) + (", " + tail)) == Some([item] + items)
  {
    var rest := ", " + tail;
    ScanQuoted(item, rest);
    assert rest[..2] == ", " && rest[2..] == tail;
  }

  lemma Reassociate(a: string, b: string, c: string, d: string)
    ensures a + b + c + d == a + (b + (c + d))
  {
  }

  lemma DumpItemsStep(items: seq<string>)
    requires |items| > 1
    ensures DumpItems(items) == Quoted(items[0]) + ", " + DumpItems(items[1..])
  {
  }

  lemma {:induction false} LoadDumpedItems(items: seq<string>)
    requires items != []
    ensures LoadItems(DumpItems(items) + "]") == Some(items)
  {
    if |items| == 1 {
      LoadLastItem(items[0]);
      assert items == [items[0]];
    } else {
      var tail := DumpItems(items[1..]) + "]";
      LoadDumpedItems(items[1..]);
      LoadMoreItems(items[0], tail, items[1..]);
      assert DumpItems(items) + "]" == Quoted(items[0]) + (", " + tail) by {
        DumpItemsStep(items);
        Reassociate(Quoted(items[0]), ", ", DumpItems(items[1..]), "]");
      }
      assert items == [items[0]] + items[1..];
    }
  }

  /** Printed lists of strings, of any characters, read back unchanged. */
  lemma LoadsOfDumps(items: seq<string>)
    ensures Loads(Dumps(items)) == Some(items)
  {
    hide EscapeChar, ScanString;
    if items != [] {
      assert Dumps(items)[1..] == DumpItems(items) + "]";
      assert |DumpItems(items)| >= 2;
      LoadDumpedItems(items);
    } else {
      assert Dumps(items) == "[]";
    }
  }

  // ---------- the text as pieces between quote characters ----------

  function JoinQuotes(pieces: seq<string>): string
    requires pieces != []
  {
    if |pieces| == 1 then pieces[0] else pieces[0] + "\"" + JoinQuotes(pieces[1..])
  }

  /** The pieces of an escaped string; a quote inside it ends a piece with a backslash. */
  function TextPieces(t: string): (r: seq<string>)
    ensures r != []
  {
    if t == "" then [""]
    else
      var r := TextPieces(t[1..]);
      if t[0] == QUOTE then ["\\"] + r else [EscapeChar(t[0]) + r[0]] + r[1..]
  }

  function ItemPieces(items: seq<string>): (r: seq<string>)
    requires items != []
    ensures r != []
  {
    if |items| == 1 then TextPieces(items[0]) else TextPieces(items[0]) + [", "] + ItemPieces(items[1..])
  }

  lemma {:induction false} JoinQuotesConcat(a: seq<string>, b: seq<string>)
    requires a != [] && b != []
    ensures JoinQuotes(a + b) == JoinQuotes(a) + "\"" + JoinQuotes(b)
  {
    assert (a + b)[1..] == a[1..] + b;
    if |a| == 1 {
      assert a[1..] + b == b;
    } else {
      JoinQuotesConcat(a[1..], b);
    }
  }

  lemma {:induction false} TextPiecesJoin(t: string)
    ensures JoinQuotes(TextPieces(t)) == EscapeText(t)
  {
    if t != "" {
      hide JoinQuotes, EscapeChar;
      TextPiecesJoin(t[1..]);
      var r := TextPieces(t[1..]);
      if t[0] == QUOTE {
        EscapedQuotePiece(r);
      } else {
        JoinQuotesPrepend(EscapeChar(t[0]), r);
      }
    }
  }

  lemma EscapedQuotePiece(pieces: seq<string>)
    requires pieces != []
    ensures JoinQuotes(["\\"] + pieces) == EscapeChar(QUOTE) + JoinQuotes(pieces)
  {
    JoinQuotesConcat(["\\"], pieces);
    assert JoinQuotes(["\\"]) + "\"" == EscapeChar(QUOTE);
  }

  lemma JoinQuotesPrepend(x: string, pieces: seq<string>)
    requires pieces != []
    ensures JoinQuotes([x + pieces[0]] + pieces[1..]) == x + JoinQuotes(pieces)
  {
    assert ([x + pieces[0]] + pieces[1..])[1..] == pieces[1..];
  }

  lemma Requote(text: string, more: string)
    ensures ("\"" + text + "\"") + ", " + ("\"" + more + "\"")
            == "\"" + (text + "\"" + ", " + "\"" + more) + "\""
  {
  }

  lemma {:induction false} ItemPiecesJoin(items: seq<string>)
    requires items != []
    ensures DumpItems(items) == "\"" + JoinQuotes(ItemPieces(items)) + "\""
  {
    TextPiecesJoin(items[0]);
    if |items| > 1 {
      var first, rest := TextPieces(items[0]), ItemPieces(items[1..]);
      ItemPiecesJoin(items[1..]);
      DumpItemsStep(items);
      JoinQuotesConcat(first + [", "], rest);
      JoinQuotesConcat(first, [", "]);
      Requote(EscapeText(items[0]), JoinQuotes(rest));
    }
  }

  lemma DumpsPieces(items: seq<string>)
    requires items != []
    ensures Dumps(items) == JoinQuotes(["["] + ItemPieces(items) + ["]"])
  {
    ItemPiecesJoin(items);
    JoinQuotesConcat(["["] + ItemPieces(items), ["]"]);
    JoinQuotesConcat(["["], ItemPieces(items));
  }

  predicate QuoteFree(s: string) { QUOTE !in s }

  ghost predicate AllQuoteFree(pieces: seq<string>) { forall i :: 0 <= i < |pieces| ==> QuoteFree(pieces[i]) }

  lemma {:induction false} TextPiecesQuoteFree(t: string)
    ensures AllQuoteFree(TextPieces(t))
  {
    if t != "" { TextPiecesQuoteFree(t[1..]); }
  }

  lemma {:induction false} ItemPiecesQuoteFree(items: seq<string>)
    requires items != []
    ensures AllQuoteFree(ItemPieces(items))
  {
    TextPiecesQuoteFree(items[0]);
    if |items| > 1 { ItemPiecesQuoteFree(items[1..]); }
  }

  // ---------- where a quoted tag can stand ----------

  lemma FoldKeeps(c: char)
    ensures FoldChar(c) == QUOTE <==> c == QUOTE
    ensures FoldChar(c) == '\\' <==> c == '\\'
  {
  }

  lemma FoldPointwise(a: string, b: string)
    ensures Fold(a) == Fold(b) <==> |a| == |b| && forall k :: 0 <= k < |a| ==> FoldChar(a[k]) == FoldChar(b[k])
  {
    if Fold(a) == Fold(b) {
      assert forall k :: 0 <= k < |a| ==> Fold(a)[k] == FoldChar(a[k]) && Fold(b)[k] == FoldChar(b[k]);
    }
  }

  lemma OccursPointwise(q: string, s: string, i: int)
    ensures OccursAt(q, s, i) <==>
              0 <= i <= |s| - |q| && forall k :: 0 <= k < |q| ==> FoldChar(s[i + k]) == FoldChar(q[k])
  {
    if 0 <= i <= |s| - |q| {
      var t := s[i..i + |q|];
      assert forall k :: 0 <= k < |q| ==> t[k] == s[i + k];
      FoldPointwise(t, q);
    }
  }

  /** A quoted needle can only start where a piece ends, and then has to fill the next piece. */
  lemma QuotedAtPiece(q: string, x: string, rest: seq<string>, i: int)
    requires QuoteFree(q) && QuoteFree(x) && rest != [] && AllQuoteFree(rest)
    ensures OccursAt("\"" + q + "\"", x + "\"" + JoinQuotes(rest), i) <==>
              (i == |x| && |rest| >= 2 && Fold(rest[0]) == Fold(q))
              || (i > |x| && OccursAt("\"" + q + "\"", JoinQuotes(rest), i - |x| - 1))
  {
    hide OccursAt, JoinQuotes, Fold, AllQuoteFree, QuoteFree;
    if i < |x| {
      NeverInPiece(q, x, JoinQuotes(rest), i);
    } else if i == |x| {
      QuotedAtBoundary(q, x, rest);
    } else {
      OccursLater("\"" + q + "\"", x, JoinQuotes(rest), i);
    }
  }

  lemma NeverInPiece(q: string, x: string, r: string, i: int)
    requires QuoteFree(x) && i < |x|
    ensures !OccursAt("\"" + q + "\"", x + "\"" + r, i)
  {
    hide OccursAt;
    var needle, s := "\"" + q + "\"", x + "\"" + r;
    OccursPointwise(needle, s, i);
    if 0 <= i {
      assert x[i] in x && s[i + 0] == x[i];
      FoldKeeps(x[i]);
      assert FoldChar(s[i + 0]) != FoldChar(needle[0]);
    }
  }

  lemma OccursLater(needle: string, x: string, r: string, i: int)
    requires i > |x|
    ensures OccursAt(needle, x + "\"" + r, i) <==> OccursAt(needle, r, i - |x| - 1)
  {
    var s, j := x + "\"" + r, i - |x| - 1;
    if j + |needle| <= |r| { assert s[i..i + |needle|] == r[j..j + |needle|]; }
  }

  /** The first quote after the start of `rest` is the one that ends its first piece. */
  lemma FirstPieceLength(q: string, rest: seq<string>)
    requires QuoteFree(q) && rest != [] && AllQuoteFree(rest)
    requires |q| < |JoinQuotes(rest)| && JoinQuotes(rest)[|q|] == QUOTE
    requires forall k :: 0 <= k < |q| ==> JoinQuotes(rest)[k] != QUOTE
    ensures |rest| >= 2 && |q| == |rest[0]| && forall k :: 0 <= k < |q| ==> rest[0][k] == JoinQuotes(rest)[k]
  {
    var r, y := JoinQuotes(rest), rest[0];
    assert forall k :: 0 <= k < |y| ==> r[k] == y[k] && y[k] in y;
    assert |rest| >= 2 ==> r[|y|] == QUOTE;
  }

  lemma QuotedAtBoundary(q: string, x: string, rest: seq<string>)
    requires QuoteFree(q) && QuoteFree(x) && rest != [] && AllQuoteFree(rest)
    ensures OccursAt("\"" + q + "\"", x + "\"" + JoinQuotes(rest), |x|) <==> |rest| >= 2 && Fold(rest[0]) == Fold(q)
  {
    var needle := "\"" + q + "\"";
    var r := JoinQuotes(rest);
    var s := x + "\"" + r;
    if OccursAt(needle, s, |x|) {
      forall k | 0 <= k <= |q| ensures FoldChar(r[k]) == FoldChar(needle[k + 1]) {
        OccursPointwise(needle, s, |x|);
        assert r[k] == s[|x| + (k + 1)];
      }
      BoundaryMeansPiece(q, rest);
    }
    if |rest| >= 2 && Fold(rest[0]) == Fold(q) {
      PieceMeansBoundary(q, x, rest);
    }
  }

  lemma PieceMeansBoundary(q: string, x: string, rest: seq<string>)
    requires |rest| >= 2 && Fold(rest[0]) == Fold(q)
    ensures OccursAt("\"" + q + "\"", x + "\"" + JoinQuotes(rest), |x|)
  {
    var needle, found := "\"" + q + "\"", "\"" + rest[0] + "\"";
    var s := x + "\"" + JoinQuotes(rest);
    Regroup(x, "\"", rest[0], "\"", JoinQuotes(rest[1..]));
    Middle(x, found, JoinQuotes(rest[1..]));
    FoldInQuotes(rest[0], q);
    assert |needle| == |found|;
  }

  lemma Regroup(x: string, a: string, y: string, b: string, z: string)
    ensures x + a + (y + b + z) == x + (a + y + b) + z
  {
  }

  lemma Middle(x: string, y: string, z: string)
    ensures (x + y + z)[|x|..|x| + |y|] == y
  {
  }

  lemma FoldInQuotes(a: string, b: string)
    requires Fold(a) == Fold(b)
    ensures Fold("\"" + a + "\"") == Fold("\"" + b + "\"")
  {
    FoldPointwise(a, b);
    FoldPointwise("\"" + a + "\"", "\"" + b + "\"");
  }

  lemma BoundaryMeansPiece(q: string, rest: seq<string>)
    requires QuoteFree(q) && rest != [] && AllQuoteFree(rest) && |q| < |JoinQuotes(rest)|
    requires forall k :: 0 <= k <= |q| ==> FoldChar(JoinQuotes(rest)[k]) == FoldChar(("\"" + q + "\"")[k + 1])
    ensures |rest| >= 2 && Fold(rest[0]) == Fold(q)
  {
    hide JoinQuotes, Fold, AllQuoteFree;
    var r := JoinQuotes(rest);
    FoldKeeps(r[|q|]);
    forall k | 0 <= k < |q| ensures r[k] != QUOTE && FoldChar(r[k]) == FoldChar(q[k]) {
      assert ("\"" + q + "\"")[k + 1] == q[k] && q[k] in q;
      FoldKeeps(r[k]);
      FoldKeeps(q[k]);
    }
    FirstPieceLength(q, rest);
    FoldPointwise(rest[0], q);
  }

  ghost predicate InnerPiece(pieces: seq<string>, q: string, i: int) {
    1 <= i < |pieces| - 1 && Fold(pieces[i]) == Fold(q)
  }

  lemma NoQuoteNoMatch(q: string, s: string)
    requires QuoteFree(s)
    ensures !Occurs("\"" + q + "\"", s)
  {
    var needle := "\"" + q + "\"";
    forall i ensures !OccursAt(needle, s, i) {
      OccursPointwise(needle, s, i);
      if 0 <= i <= |s| - |needle| {
        assert FoldChar(s[i + 0]) != FoldChar(needle[0]) by { FoldKeeps(s[i]); }
      }
    }
  }

  lemma QuotedOccursStep(q: string, x: string, rest: seq<string>)
    requires QuoteFree(q) && QuoteFree(x) && rest != [] && AllQuoteFree(rest)
    ensures Occurs("\"" + q + "\"", x + "\"" + JoinQuotes(rest)) <==>
              (|rest| >= 2 && Fold(rest[0]) == Fold(q)) || Occurs("\"" + q + "\"", JoinQuotes(rest))
  {
    var needle, r := "\"" + q + "\"", JoinQuotes(rest);
    var s := x + "\"" + r;
    if i :| OccursAt(needle, s, i) {
      QuotedAtPiece(q, x, rest, i);
    }
    if |rest| >= 2 && Fold(rest[0]) == Fold(q) {
      QuotedAtPiece(q, x, rest, |x|);
    }
    if i :| OccursAt(needle, r, i) {
      QuotedAtPiece(q, x, rest, i + |x| + 1);
    }
  }

  lemma InnerPieceStep(q: string, pieces: seq<string>)
    requires |pieces| >= 2
    ensures (exists i :: InnerPiece(pieces, q, i)) <==>
              (|pieces| >= 3 && Fold(pieces[1]) == Fold(q)) || exists i :: InnerPiece(pieces[1..], q, i)
  {
    if i :| InnerPiece(pieces, q, i) {
      if i > 1 { assert InnerPiece(pieces[1..], q, i - 1); }
    }
    if |pieces| >= 3 && Fold(pieces[1]) == Fold(q) { assert InnerPiece(pieces, q, 1); }
    if i :| InnerPiece(pieces[1..], q, i) { assert InnerPiece(pieces, q, i + 1); }
  }

  lemma {:induction false} QuotedOccursIffInnerPiece(q: string, pieces: seq<string>)
    requires QuoteFree(q) && pieces != [] && AllQuoteFree(pieces)
    ensures Occurs("\"" + q + "\"", JoinQuotes(pieces)) <==> exists i :: InnerPiece(pieces, q, i)
  {
    if |pieces| == 1 {
      NoQuoteNoMatch(q, pieces[0]);
    } else {
      QuotedOccursIffInnerPiece(q, pieces[1..]);
      QuotedOccursStep(q, pieces[0], pieces[1..]);
      InnerPieceStep(q, pieces);
    }
  }

  // ---------- which pieces equal the tag ----------

  /** The part of t after its last quote character; t itself when it has none. */
  function AfterLastQuote(t: string): (r: string)
    ensures QuoteFree(r)
    ensures QuoteFree(t) ==> r == t
  {
    if QuoteFree(t) then t else AfterLastQuote(t[1..])
  }

  lemma {:induction false} LastTextPiece(t: string)
    ensures var r := TextPieces(t);
            r[|r| - 1] == EscapeText(AfterLastQuote(t)) && (|r| == 1 <==> QuoteFree(t))
  {
    if t != "" {
      LastTextPiece(t[1..]);
      assert QuoteFree(t) <==> t[0] != QUOTE && QuoteFree(t[1..]) by { assert t == [t[0]] + t[1..]; }
    }
  }

  lemma {:induction false} EarlierTextPieces(t: string)
    ensures forall i :: 0 <= i < |TextPieces(t)| - 1 ==> '\\' in TextPieces(t)[i]
  {
    if t != "" {
      EarlierTextPieces(t[1..]);
      var tail, r := TextPieces(t[1..]), TextPieces(t);
      forall i | 0 <= i < |r| - 1 ensures '\\' in r[i] {
        if t[0] == QUOTE {
          assert r[i] == if i == 0 then "\\" else tail[i - 1];
        } else {
          assert r[i] == if i == 0 then EscapeChar(t[0]) + tail[0] else tail[i];
        }
      }
    }
  }

  lemma FoldMembership(a: string, b: string, c: char)
    requires Fold(a) == Fold(b) && c in a && (c == QUOTE || c == '\\')
    ensures c in b
  {
    var i :| 0 <= i < |a| && a[i] == c;
    assert Fold(a)[i] == FoldChar(a[i]) && Fold(b)[i] == FoldChar(b[i]);
    FoldKeeps(a[i]);
    FoldKeeps(b[i]);
  }

  lemma {:induction false} EscapeTextOfPlain(u: string)
    ensures Plain(u) ==> EscapeText(u) == u
    ensures !Plain(u) ==> '\\' in EscapeText(u)
  {
    if u != "" {
      EscapeTextOfPlain(u[1..]);
      if PlainChar(u[0]) && !Plain(u) {
        assert !Plain(u[1..]) by {
          var i :| 0 <= i < |u| && !PlainChar(u[i]);
          assert u[i] == u[1..][i - 1];
        }
      } else if !PlainChar(u[0]) {
        assert EscapeText(u)[0] == '\\';
      }
    }
  }

  lemma PlainUpToCase(u: string, q: string)
    requires Fold(u) == Fold(q)
    ensures Plain(u) <==> Plain(q)
  {
    assert |u| == |q|;
    forall i | 0 <= i < |u| ensures PlainChar(u[i]) <==> PlainChar(q[i]) {
      assert Fold(u)[i] == FoldChar(u[i]) && Fold(q)[i] == FoldChar(q[i]);
    }
  }

  lemma EscapedTextEqualsTag(u: string, q: string)
    requires '\\' !in q
    ensures Fold(EscapeText(u)) == Fold(q) <==> Plain(q) && Fold(u) == Fold(q)
  {
    EscapeTextOfPlain(u);
    if Plain(u) {
      if Fold(u) == Fold(q) { PlainUpToCase(u, q); }
    } else {
      if Fold(EscapeText(u)) == Fold(q) { FoldMembership(EscapeText(u), q, '\\'); }
      if Fold(u) == Fold(q) { PlainUpToCase(u, q); }
    }
  }

  ghost predicate HasPiece(pieces: seq<string>, q: string) {
    exists i :: 0 <= i < |pieces| && Fold(pieces[i]) == Fold(q)
  }

  lemma TextPieceEqualsTag(t: string, q: string)
    requires '\\' !in q
    ensures HasPiece(TextPieces(t), q) <==> Plain(q) && Fold(AfterLastQuote(t)) == Fold(q)
  {
    LastTextPiece(t);
    EarlierTextPieces(t);
    EscapedTextEqualsTag(AfterLastQuote(t), q);
    var r := TextPieces(t);
    if HasPiece(r, q) {
      var i :| 0 <= i < |r| && Fold(r[i]) == Fold(q);
      if i < |r| - 1 { FoldMembership(r[i], q, '\\'); }
    }
  }

  lemma HasPieceConcat(a: seq<string>, b: seq<string>, q: string)
    ensures HasPiece(a + b, q) <==> HasPiece(a, q) || HasPiece(b, q)
  {
    if HasPiece(b, q) {
      var i :| 0 <= i < |b| && Fold(b[i]) == Fold(q);
      assert (a + b)[|a| + i] == b[i];
    }
    if HasPiece(a, q) {
      var i :| 0 <= i < |a| && Fold(a[i]) == Fold(q);
      assert (a + b)[i] == a[i];
    }
  }

  lemma SeparatorUpToCase(q: string)
    ensures Fold(", ") == Fold(q) <==> q == ", "
  {
    if Fold(", ") == Fold(q) {
      assert |q| == 2;
      assert Fold(q)[0] == FoldChar(q[0]) && Fold(q)[1] == FoldChar(q[1]);
      assert Fold(", ")[0] == ',' && Fold(", ")[1] == ' ';
      assert q == [q[0]] + [q[1]];
    }
  }

  /** A stored tag the pattern takes for q: q itself, or one ending in a quote and then q. */
  ghost predicate TagHit(items: seq<string>, q: string) {
    exists t :: t in items && Fold(AfterLastQuote(t)) == Fold(q)
  }

  lemma {:induction false} ItemPieceEqualsTag(items: seq<string>, q: string)
    requires items != [] && '\\' !in q
    ensures HasPiece(ItemPieces(items), q) <==>
              Plain(q) && (TagHit(items, q) || (q == ", " && |items| >= 2))
  {
    TextPieceEqualsTag(items[0], q);
    if |items| > 1 {
      ItemPieceEqualsTag(items[1..], q);
      HasPieceConcat(TextPieces(items[0]) + [", "], ItemPieces(items[1..]), q);
      HasPieceConcat(TextPieces(items[0]), [", "], q);
      SeparatorUpToCase(q);
      assert HasPiece([", "], q) <==> q == ", " by { assert [", "][0] == ", "; }
      assert items == [items[0]] + items[1..];
      assert Plain(", ");
    }
  }

  /**
   * The SQLite tag filter, decided for every stored list and every query without quotes and
   * backslashes. It is membership up to ASCII case, with two exceptions: the query `, ` meets any
   * two tags, and a stored tag that contains a quote is also met by what follows its last quote.
   */
  lemma TagPatternIsMembership(items: seq<string>, q: string)
    requires QuoteFree(q) && '\\' !in q
    ensures Matches("%\"" + EscapeLike(q) + "\"%", Dumps(items)) <==>
              Plain(q) && (TagHit(items, q) || (q == ", " && |items| >= 2))
  {
    QuotedTagPattern(q);
    EscapedSearchIsContainment("\"" + q + "\"", Dumps(items));
    if items == [] {
      assert Dumps(items) == "[]";
      NoQuoteNoMatch(q, "[]");
    } else {
      QuotedOccursInDump(items, q);
      ItemPieceEqualsTag(items, q);
    }
  }

  lemma QuotedOccursInDump(items: seq<string>, q: string)
    requires QuoteFree(q) && items != []
    ensures Occurs("\"" + q + "\"", Dumps(items)) <==> HasPiece(ItemPieces(items), q)
  {
    hide JoinQuotes, Occurs, Dumps, ItemPieces, Fold;
    DumpsPieces(items);
    var inner := ItemPieces(items);
    var pieces := ["["] + inner + ["]"];
    ItemPiecesQuoteFree(items);
    QuotedOccursIffInnerPiece(q, pieces);
    if HasPiece(inner, q) {
      var i :| 0 <= i < |inner| && Fold(inner[i]) == Fold(q);
      assert InnerPiece(pieces, q, i + 1);
    }
    if i :| InnerPiece(pieces, q, i) {
      assert pieces[i] == inner[i - 1];
    }
  }
}
