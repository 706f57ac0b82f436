/** Stored values and the two accessors the form uses to read a stored row back:
    `safe_get` (missing or NaN falls back to a default) and `safe_get_list`
    (a bracket-and-quote text encoding decoded into a list of strings). */
module Cells {
  import opened Strings

  datatype Option<+T> = None | Some(value: T)

  /** A non-missing cell of the table: text or an integer. */
  datatype Value = Text(s: string) | Num(n: int)

  /** One table row, column name to cell. `None` is a NaN / `None` cell; a column the
      row does not carry reads the same way, as pandas fills absent columns with NaN. */
  type Row = map<string, Option<Value>>

  function Get(row: Row, key: string): Option<Value> {
    if key in row then row[key] else None
  }

  /** `safe_get(data, key, default)`: the stored value when there is one, the
      default when the column is absent or holds NaN. */
  function SafeGet(row: Row, key: string, default: Value): (r: Value)
    ensures key in row && row[key].Some? ==> r == row[key].value
    ensures key !in row || row[key].None? ==> r == default
  {
    match Get(row, key)
    case Some(v) => v
    case None => default
  }

  /** Writing a value into a column and reading it back with `safe_get` gives that
      value, whatever the default; other columns read as before. */
  lemma SafeGetAfterWrite(row: Row, key: string, v: Value, other: string, default: Value)
    requires other != key
    ensures SafeGet(row[key := Some(v)], key, default) == v
    ensures SafeGet(row[key := Some(v)], other, default) == SafeGet(row, other, default)
  {
  }

  /** None of the four characters the list decoder deletes or splits on. */
  predicate FreeOfListPunct(s: string) {
    '[' !in s && ']' !in s && '\'' !in s && ',' !in s
  }

  /** `value.replace("[", "").replace("]", "").replace("'", "")` */
  function Unbracket(s: string): (r: string)
    ensures '[' !in r && ']' !in r && '\'' !in r
  {
    RemoveKeepsAbsent(Remove(s, '['), ']', '[');
    RemoveKeepsAbsent(Remove(Remove(s, '['), ']'), '\'', '[');
    RemoveKeepsAbsent(Remove(Remove(s, '['), ']'), '\'', ']');
    Remove(Remove(Remove(s, '['), ']'), '\'')
  }

  lemma UnbracketAppend(a: string, b: string)
    ensures Unbracket(a + b) == Unbracket(a) + Unbracket(b)
  {
    RemoveAppend(a, b, '[');
    RemoveAppend(Remove(a, '['), Remove(b, '['), ']');
    RemoveAppend(Remove(Remove(a, '['), ']'), Remove(Remove(b, '['), ']'), '\'');
  }

  lemma UnbracketUnchanged(s: string)
    requires '[' !in s && ']' !in s && '\'' !in s
    ensures Unbracket(s) == s
  {
  }

  /** Deleting the brackets and quotes keeps out any comma the text did not have. */
  lemma UnbracketKeepsNoComma(s: string)
    requires ',' !in s
    ensures ',' !in Unbracket(s)
  {
    RemoveKeepsAbsent(s, '[', ',');
    RemoveKeepsAbsent(Remove(s, '['), ']', ',');
    RemoveKeepsAbsent(Remove(Remove(s, '['), ']'), '\'', ',');
  }

  /** Deleting the brackets and the quote keeps every other character as often as
      it occurred. */
  lemma UnbracketCounts(s: string)
    ensures multiset(Unbracket(s)) == multiset(s)['[' := 0][']' := 0]['\'' := 0]
  {
    RemoveCounts(s, '[');
    RemoveCounts(Remove(s, '['), ']');
    RemoveCounts(Remove(Remove(s, '['), ']'), '\'');
  }

  /** `[item.strip() for item in pieces if item]`: empty pieces are dropped before
      stripping, so a whitespace-only piece survives as an empty string. */
  function Compact(pieces: seq<string>): (r: seq<string>)
    ensures |r| <= |pieces|
    ensures forall i :: 0 <= i < |r| ==> Trimmed(r[i])
  {
    if pieces == [] then []
    else (if pieces[0] == [] then [] else [Strip(pieces[0])]) + Compact(pieces[1..])
  }

  lemma {:induction false} CompactAppend(a: seq<string>, b: seq<string>)
    ensures Compact(a + b) == Compact(a) + Compact(b)
    decreases |a|
  {
    if a == [] {
      assert a + b == b;
    } else {
      assert (a + b)[0] == a[0];
      assert (a + b)[1..] == a[1..] + b;
      CompactAppend(a[1..], b);
    }
  }

  lemma CompactOne(p: string)
    ensures Compact([p]) == if p == [] then [] else [Strip(p)]
  {
    assert [p][1..] == [];
  }

  /** The rule for one piece anywhere among the pieces: an empty piece yields no
      item and any other piece yields its stripped text, whatever surrounds it. */
  lemma CompactPiece(a: seq<string>, p: string, b: seq<string>)
    ensures Compact(a + [p] + b) == Compact(a) + (if p == [] then [] else [Strip(p)]) + Compact(b)
  {
    CompactAppend(a + [p], b);
    CompactAppend(a, [p]);
    CompactOne(p);
  }

  /** So a whitespace-only piece yields an empty item. */
  lemma CompactBlankPiece(a: seq<string>, p: string, b: seq<string>)
    requires p != [] && AllSpace(p)
    ensures Compact(a + [p] + b) == Compact(a) + [""] + Compact(b)
  {
    CompactPiece(a, p, b);
    StripAllSpace(p);
  }

  /** Stripping pieces that lack the list punctuation yields items that lack it too. */
  lemma {:induction false} CompactKeepsFree(pieces: seq<string>)
    requires forall i :: 0 <= i < |pieces| ==> FreeOfListPunct(pieces[i])
    ensures forall i :: 0 <= i < |Compact(pieces)| ==> FreeOfListPunct(Compact(pieces)[i])
    decreases |pieces|
  {
    if pieces != [] {
      CompactKeepsFree(pieces[1..]);
      var p := pieces[0];
      assert FreeOfListPunct(p);
      StripKeepsAbsent(p, '[');
      StripKeepsAbsent(p, ']');
      StripKeepsAbsent(p, '\'');
      StripKeepsAbsent(p, ',');
    }
  }

  /** The pieces `Unbracket(s).split(",")` carry none of the list punctuation. */
  lemma {:induction false} PiecesFree(s: string)
    ensures forall i :: 0 <= i < |Split(Unbracket(s), ',')| ==> FreeOfListPunct(Split(Unbracket(s), ',')[i])
  {
    var u := Unbracket(s);
    var ps := Split(u, ',');
    forall i | 0 <= i < |ps|
      ensures FreeOfListPunct(ps[i])
    {
      SplitPieceChars(u, ',', i, '[');
      SplitPieceChars(u, ',', i, ']');
      SplitPieceChars(u, ',', i, '\'');
    }
  }

  /** A character absent from the text is absent from every piece of its split. */
  lemma {:induction false} SplitPieceChars(s: string, sep: char, i: nat, c: char)
    requires c !in s
    requires i < |Split(s, sep)|
    ensures c !in Split(s, sep)[i]
    decreases |s|
  {
    if s != [] {
      var rest := Split(s[1..], sep);
      assert c !in s[1..];
      if s[0] == sep {
        if i > 0 {
          SplitPieceChars(s[1..], sep, i - 1, c);
        }
      } else if i == 0 {
        SplitPieceChars(s[1..], sep, 0, c);
        assert Split(s, sep)[0] == [s[0]] + rest[0];
      } else {
        SplitPieceChars(s[1..], sep, i, c);
      }
    }
  }

  /** The decoder of `safe_get_list` for a text cell: delete every `[`, `]` and `'`,
      split on `,`, drop empty pieces, strip the rest. Every item comes out
      whitespace-trimmed and free of the four punctuation characters, and there are
      never more items than comma-separated pieces. */
  function DecodeList(s: string): (r: seq<string>)
    ensures forall i :: 0 <= i < |r| ==> Trimmed(r[i]) && FreeOfListPunct(r[i])
    ensures |r| <= |Split(Unbracket(s), ',')|
  {
    var pieces := Split(Unbracket(s), ',');
    PiecesFree(s);
    CompactKeepsFree(pieces);
    Compact(pieces)
  }

  /** On text without brackets or quotes the decoder reads the comma-separated
      pieces: its items are the pieces with empty ones dropped and the rest
      stripped. */
  lemma DecodeJoined(ps: seq<string>)
    requires |ps| >= 1
    requires forall i :: 0 <= i < |ps| ==> FreeOfListPunct(ps[i])
    ensures DecodeList(Join(ps, ',')) == Compact(ps)
  {
    JoinKeepsAbsent(ps, ',', '[');
    JoinKeepsAbsent(ps, ',', ']');
    JoinKeepsAbsent(ps, ',', '\'');
    UnbracketUnchanged(Join(ps, ','));
    SplitJoin(ps, ',');
  }

  /** `safe_get_list(data, key)`: NaN and non-text cells give the empty list; a
      missing column reads as the empty string, which also gives the empty list;
      a text cell is decoded. */
  function SafeGetList(row: Row, key: string): (r: seq<string>)
    ensures key !in row ==> r == []
    ensures key in row && (row[key].None? || row[key].value.Num?) ==> r == []
    ensures key in row && row[key].Some? && row[key].value.Text? ==> r == DecodeList(row[key].value.s)
    ensures forall i :: 0 <= i < |r| ==> Trimmed(r[i]) && FreeOfListPunct(r[i])
  {
    var value: Option<Value> := if key in row then row[key] else Some(Text(""));
    match value
    case Some(Text(s)) => DecodeList(s)
    case _ => []
  }

  /** An item that Python's `repr` prints between plain single quotes and that the
      decoder gives back unchanged: non-empty, printable ASCII, no backslash, none
      of the list punctuation, and no whitespace at either end. */
  predicate PlainItem(x: string) {
    && x != []
    && Trimmed(x)
    && FreeOfListPunct(x)
    && forall i :: 0 <= i < |x| ==> ' ' <= x[i] <= '~' && x[i] != '\\'
  }

  predicate AllPlain(xs: seq<string>) {
    forall i :: 0 <= i < |xs| ==> PlainItem(xs[i])
  }

  /** `str(xs)` for a Python list of strings: `['x1', 'x2', ...]`. */
  function EncodeList(xs: seq<string>): string {
    "[" + QuotedItems(xs) + "]"
  }

  /** `repr(x)` for a plain item: the item between single quotes. */
  function Quoted(x: string): string {
    "'" + x + "'"
  }

  function QuotedItems(xs: seq<string>): string {
    if xs == [] then ""
    else if |xs| == 1 then Quoted(xs[0])
    else Quoted(xs[0]) + (", " + QuotedItems(xs[1..]))
  }

  /** The comma-separated tail `, x2, x3, ...` left after the quotes and brackets go. */
  function CommaTail(ys: seq<string>): string {
    if ys == [] then "" else ", " + ys[0] + CommaTail(ys[1..])
  }

  lemma UnbracketQuote()
    ensures Unbracket("'") == []
  {
  }

  lemma UnbracketCommaBlank()
    ensures Unbracket(", ") == ", "
  {
  }

  /** `'x'` loses its quotes. */
  lemma UnbracketQuoted(x: string)
    requires '[' !in x && ']' !in x && '\'' !in x
    ensures Unbracket(Quoted(x)) == x
  {
    UnbracketQuote();
    UnbracketUnchanged(x);
    UnbracketAppend("'" + x, "'");
    UnbracketAppend("'", x);
  }

  /** `'x', rest` loses the quotes around `x` and keeps the comma and blank. */
  lemma UnbracketQuotedComma(x: string, q: string)
    requires PlainItem(x)
    ensures Unbracket(Quoted(x) + (", " + q)) == x + (", " + Unbracket(q))
  {
    UnbracketAppend(Quoted(x), ", " + q);
    UnbracketQuoted(x);
    UnbracketAppend(", ", q);
    UnbracketCommaBlank();
  }

  lemma RestPlain(xs: seq<string>)
    requires xs != [] && AllPlain(xs)
    ensures PlainItem(xs[0]) && AllPlain(xs[1..])
  {
    assert PlainItem(xs[0]);
    forall i | 0 <= i < |xs| - 1 ensures PlainItem(xs[1..][i]) {
      assert xs[1..][i] == xs[i + 1];
    }
  }

  lemma {:induction false} UnbracketQuotedItems(xs: seq<string>)
    requires xs != [] && AllPlain(xs)
    ensures Unbracket(QuotedItems(xs)) == xs[0] + CommaTail(xs[1..])
    decreases |xs|
  {
    RestPlain(xs);
    var x, rest := xs[0], xs[1..];
    if |xs| == 1 {
      UnbracketQuoted(x);
      assert rest == [];
      assert x + CommaTail(rest) == x;
    } else {
      var q := QuotedItems(rest);
      var t := CommaTail(rest[1..]);
      calc {
        Unbracket(QuotedItems(xs));
        Unbracket(Quoted(x) + (", " + q));
        { UnbracketQuotedComma(x, q); }
        x + (", " + Unbracket(q));
        { UnbracketQuotedItems(rest); }
        x + (", " + (rest[0] + t));
        { assert ", " + (rest[0] + t) == ", " + rest[0] + t; }
        x + (", " + rest[0] + t);
        { assert CommaTail(rest) == ", " + rest[0] + t; }
        x + CommaTail(rest);
      }
    }
  }

  /** Prefixes every item with the blank that followed its comma. */
  function Spaced(ys: seq<string>): seq<string> {
    if ys == [] then [] else [" " + ys[0]] + Spaced(ys[1..])
  }

  /** One `, y` in front of text whose comma pieces are an empty one and then `sp`. */
  lemma SplitSpacedStep(y: string, t: string, sp: seq<string>)
    requires ',' !in y && Split(t, ',') == [[]] + sp
    ensures Split([','] + ((" " + y) + t), ',') == [[]] + ([" " + y] + sp)
  {
    assert ',' !in " " + y;
    SplitPrefix(" " + y, t, ',');
    assert (" " + y) + [] == " " + y;
    assert ([[]] + sp)[1..] == sp;
    SplitAfterSep((" " + y) + t, ',');
  }

  predicate CommaFree(ys: seq<string>) {
    forall i :: 0 <= i < |ys| ==> ',' !in ys[i]
  }

  lemma RestCommaFree(ys: seq<string>)
    requires ys != [] && CommaFree(ys)
    ensures ',' !in ys[0] && CommaFree(ys[1..])
  {
    assert ',' !in ys[0];
    forall i | 0 <= i < |ys| - 1 ensures ',' !in ys[1..][i] {
      assert ys[1..][i] == ys[i + 1];
    }
  }

  lemma PlainCommaFree(ys: seq<string>)
    requires AllPlain(ys)
    ensures CommaFree(ys)
  {
    forall i | 0 <= i < |ys| ensures ',' !in ys[i] {
      assert PlainItem(ys[i]);
    }
  }

  lemma {:induction false} SplitCommaTail(ys: seq<string>)
    requires CommaFree(ys)
    ensures Split(CommaTail(ys), ',') == [[]] + Spaced(ys)
    decreases |ys|
  {
    if ys != [] {
      RestCommaFree(ys);
      var y, rest := ys[0], ys[1..];
      SplitCommaTail(rest);
      SplitSpacedStep(y, CommaTail(rest), Spaced(rest));
      assert CommaTail(ys) == [','] + ((" " + y) + CommaTail(rest));
    }
  }

  lemma {:induction false} CompactSpaced(ys: seq<string>)
    requires AllPlain(ys)
    ensures Compact(Spaced(ys)) == ys
    decreases |ys|
  {
    if ys != [] {
      RestPlain(ys);
      var rest := ys[1..];
      CompactSpaced(rest);
      StripAfterSpace(" ", ys[0]);
      StripTrimmed(ys[0]);
      assert Spaced(ys)[0] == " " + ys[0];
      assert Spaced(ys)[1..] == Spaced(rest);
    }
  }

  /** Deleting the brackets of `[...]` leaves the unbracketed inner text. */
  lemma UnbracketEncode(xs: seq<string>)
    ensures Unbracket(EncodeList(xs)) == Unbracket(QuotedItems(xs))
  {
    var inner := QuotedItems(xs);
    assert EncodeList(xs) == "[" + (inner + "]");
    UnbracketAppend("[", inner + "]");
    UnbracketAppend(inner, "]");
    UnbracketBrackets();
    assert [] + (Unbracket(inner) + []) == Unbracket(inner);
  }

  /** The pieces of a non-empty encoded list: the first item, then every further
      item behind the blank that followed its comma. */
  lemma {:induction false} SplitEncoded(xs: seq<string>)
    requires xs != [] && AllPlain(xs)
    ensures Split(Unbracket(EncodeList(xs)), ',') == [xs[0]] + Spaced(xs[1..])
  {
    RestPlain(xs);
    UnbracketEncode(xs);
    UnbracketQuotedItems(xs);
    PlainCommaFree(xs[1..]);
    SplitCommaTail(xs[1..]);
    SplitPrefix(xs[0], CommaTail(xs[1..]), ',');
    assert xs[0] + [] == xs[0];
  }

  /** Round trip: the list text Python writes for plain items (`str(list)`) decodes
      to the same items in the same order. */
  lemma {:induction false} DecodeEncode(xs: seq<string>)
    requires AllPlain(xs)
    ensures DecodeList(EncodeList(xs)) == xs
  {
    if xs == [] {
      UnbracketEncode(xs);
      assert Unbracket(QuotedItems(xs)) == [];
    } else {
      RestPlain(xs);
      var rest := xs[1..];
      SplitEncoded(xs);
      CompactAppend([xs[0]], Spaced(rest));
      CompactSpaced(rest);
      StripTrimmed(xs[0]);
      assert Compact([xs[0]]) == [xs[0]];
      assert [xs[0]] + rest == xs;
    }
  }

  lemma SplitDoubleComma(a: string, b: string)
    requires PlainItem(a) && PlainItem(b)
    ensures Split(Unbracket(a + ",," + b), ',') == [a, [], b]
  {
    var s := a + ([','] + ([] + ([','] + b)));
    assert a + ",," + b == s;
    UnbracketUnchanged(s);
    SplitThree(a, [], b, ',');
  }

  lemma SplitBlankPiece(a: string, b: string)
    requires PlainItem(a) && PlainItem(b)
    ensures Split(Unbracket(a + ", ," + b), ',') == [a, " ", b]
  {
    var s := a + ([','] + ([' '] + ([','] + b)));
    assert a + ", ," + b == s;
    UnbracketUnchanged(s);
    SplitThree(a, [' '], b, ',');
  }

  /** Empty comma pieces disappear: `a,,b` decodes to `[a, b]`. */
  lemma DecodeDropsEmptyPiece(a: string, b: string)
    requires PlainItem(a) && PlainItem(b)
    ensures DecodeList(a + ",," + b) == [a, b]
  {
    SplitDoubleComma(a, b);
    StripTrimmed(a);
    StripTrimmed(b);
    assert Compact([b]) == [b] by { assert [b][1..] == []; }
    assert Compact([[], b]) == [b] by { assert [[], b][1..] == [b]; }
    assert [a, [], b][1..] == [[], b];
  }

  /** A whitespace-only piece is kept, because emptiness is tested before
      stripping: `a, ,b` decodes to `[a, "", b]`. */
  lemma DecodeKeepsBlankPiece(a: string, b: string)
    requires PlainItem(a) && PlainItem(b)
    ensures DecodeList(a + ", ," + b) == [a, "", b]
  {
    SplitBlankPiece(a, b);
    StripTrimmed(a);
    StripTrimmed(b);
    StripAllSpace(" ");
    assert Compact([b]) == [b] by { assert [b][1..] == []; }
    assert Compact([" ", b]) == ["", b] by { assert [" ", b][1..] == [b]; }
    assert [a, " ", b][1..] == [" ", b];
  }

  /** An item with a comma inside, written as `['a, b']`, comes back as two items:
      the decoder splits at every comma, including the ones inside quotes. */
  lemma CommaItemSplits(a: string, b: string)
    requires PlainItem(a) && PlainItem(b)
    ensures DecodeList(EncodeList([a + ", " + b])) == [a, b]
  {
    var x := a + ", " + b;
    UnbracketOne(x);
    SplitCommaItem(a, b);
    CompactCommaItem(a, b);
  }

  lemma UnbracketOne(x: string)
    requires '[' !in x && ']' !in x && '\'' !in x
    ensures Unbracket(EncodeList([x])) == x
  {
    UnbracketEncode([x]);
    assert QuotedItems([x]) == Quoted(x);
    UnbracketQuoted(x);
  }

  lemma UnbracketBrackets()
    ensures Unbracket("[") == [] && Unbracket("]") == []
  {
  }

  lemma SplitCommaItem(a: string, b: string)
    requires ',' !in a && ',' !in b
    ensures Split(a + ", " + b, ',') == [a, " " + b]
  {
    assert a + ", " + b == a + ([','] + (" " + b));
    SplitNoSep(" " + b, ',');
    SplitPieceThenSep(a, " " + b, ',');
  }

  lemma CompactCommaItem(a: string, b: string)
    requires a != [] && Trimmed(a) && Trimmed(b)
    ensures Compact([a, " " + b]) == [a, b]
  {
    StripTrimmed(a);
    StripAfterSpace(" ", b);
    StripTrimmed(b);
    CompactOne(" " + b);
    assert [a, " " + b][1..] == [" " + b];
  }

  /** One of the Histology choices the form offers, saved and read back, becomes
      two items that are not among the choices. */
  lemma HistologyOptionSplits()
    ensures DecodeList(EncodeList(["Glomus tumour, malignant"])) == ["Glomus tumour", "malignant"]
  {
    GlomusPlain();
    MalignantPlain();
    HistologyOptionText();
    CommaItemSplits("Glomus tumour", "malignant");
  }

  // The three facts about literals below are proved on their own: stated inside
  // HistologyOptionSplits they make that proof far more expensive.

  lemma HistologyOptionText()
    ensures "Glomus tumour" + ", " + "malignant" == "Glomus tumour, malignant"
  {
  }

  lemma GlomusPlain()
    ensures PlainItem("Glomus tumour")
  {
  }

  lemma MalignantPlain()
    ensures PlainItem("malignant")
  {
  }
}
