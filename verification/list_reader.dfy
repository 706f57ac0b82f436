/** The list reader `safe_get_list` needs: it reads the items of a Python list
    text from between their quotes, so a comma inside an item stays in it. */
module ListReader {
  import opened Cells

  /** Position of the first single quote in `t`, or `|t|` when there is none. */
  function QuoteAt(t: string): (k: nat)
    ensures k <= |t|
    ensures '\'' !in t[..k]
    ensures k < |t| ==> t[k] == '\''
    decreases |t|
  {
    if t == [] || t[0] == '\'' then 0
    else
      var k := 1 + QuoteAt(t[1..]);
      assert t[..k] == [t[0]] + t[1..][..k - 1];
      k
  }

  /** The list reader the form needs: the texts between successive pairs of
      single quotes, each taken whole. Brackets, commas and blanks outside the
      quotes only separate items; an unterminated quote runs to the end. */
  function ReadQuotedItems(s: string): (r: seq<string>)
    ensures forall i :: 0 <= i < |r| ==> '\'' !in r[i]
    decreases |s|
  {
    var open := QuoteAt(s);
    if open == |s| then []
    else
      var t := s[open + 1..];
      var close := QuoteAt(t);
      if close == |t| then [t[..close]]
      else [t[..close]] + ReadQuotedItems(t[close + 1..])
  }

  /** `safe_get_list` with the reader above in place of the character deletion
      and comma split. */
  function SafeGetListIntended(row: Row, key: string): (r: seq<string>)
    ensures key !in row ==> r == []
    ensures key in row && (row[key].None? || row[key].value.Num?) ==> r == []
    ensures key in row && row[key].Some? && row[key].value.Text? ==> r == ReadQuotedItems(row[key].value.s)
    ensures forall i :: 0 <= i < |r| ==> '\'' !in r[i]
  {
    var value: Option<Value> := if key in row then row[key] else Some(Text(""));
    match value
    case Some(Text(s)) => ReadQuotedItems(s)
    case _ => []
  }

  /** A printable-ASCII item without a backslash or a single quote, which Python's
      `repr` writes between plain single quotes. Commas, brackets and blanks are
      allowed, and so is the empty item. `repr` also writes other printable
      characters unescaped; those items are not covered here. */
  predicate QuotableItem(x: string) {
    forall i :: 0 <= i < |x| ==> ' ' <= x[i] <= '~' && x[i] != '\\' && x[i] != '\''
  }

  predicate AllQuotable(xs: seq<string>) {
    forall i :: 0 <= i < |xs| ==> QuotableItem(xs[i])
  }

  lemma {:induction false} QuoteAtAfterFree(p: string, r: string)
    requires '\'' !in p
    ensures QuoteAt(p + ("'" + r)) == |p|
    decreases |p|
  {
    if p == [] {
      assert p + ("'" + r) == "'" + r;
    } else {
      assert (p + ("'" + r))[1..] == p[1..] + ("'" + r);
      QuoteAtAfterFree(p[1..], r);
    }
  }

  lemma QuoteAtNone(t: string)
    requires '\'' !in t
    ensures QuoteAt(t) == |t|
  {
  }

  /** A quote-free text reads as no items. */
  lemma ReadNone(u: string)
    requires '\'' !in u
    ensures ReadQuotedItems(u) == []
  {
    QuoteAtNone(u);
  }

  /** Text before an opening quote is skipped, and the quoted text is one item. */
  lemma ReadSkip(p: string, x: string, rest: string)
    requires '\'' !in p && '\'' !in x
    ensures ReadQuotedItems(p + ("'" + (x + ("'" + rest)))) == [x] + ReadQuotedItems(rest)
  {
    var s := p + ("'" + (x + ("'" + rest)));
    QuoteAtAfterFree(p, x + ("'" + rest));
    var t := s[|p| + 1..];
    assert t == x + ("'" + rest);
    QuoteAtAfterFree(x, rest);
    assert t[..|x|] == x;
    assert t[|x| + 1..] == rest;
  }

  lemma RestQuotable(xs: seq<string>)
    requires xs != [] && AllQuotable(xs)
    ensures QuotableItem(xs[0]) && AllQuotable(xs[1..])
  {
    assert QuotableItem(xs[0]);
    forall i | 0 <= i < |xs| - 1 ensures QuotableItem(xs[1..][i]) {
      assert xs[1..][i] == xs[i + 1];
    }
  }

  lemma QuotableNoQuote(x: string)
    requires QuotableItem(x)
    ensures '\'' !in x
  {
    forall i | 0 <= i < |x| ensures x[i] != '\'' {
    }
  }

  /** Regroups a quoted item into the nesting `ReadSkip` expects; kept apart from
      `ReadQuotedFront` because inline it makes that proof much costlier. */
  lemma QuotedShape(p: string, x: string, t: string)
    ensures p + (Quoted(x) + t) == p + ("'" + (x + ("'" + t)))
  {
  }

  /** A quoted item read off the front of the rest of a list text. */
  lemma ReadQuotedFront(p: string, x: string, t: string)
    requires '\'' !in p && QuotableItem(x)
    ensures ReadQuotedItems(p + (Quoted(x) + t)) == [x] + ReadQuotedItems(t)
  {
    QuotableNoQuote(x);
    QuotedShape(p, x, t);
    ReadSkip(p, x, t);
  }

  /** A list text of two or more items: its first quoted item, then the rest. */
  lemma QuotedItemsCons(xs: seq<string>)
    requires |xs| > 1
    ensures QuotedItems(xs) + "]" == Quoted(xs[0]) + (", " + (QuotedItems(xs[1..]) + "]"))
  {
    var q := QuotedItems(xs[1..]);
    assert QuotedItems(xs) == Quoted(xs[0]) + (", " + q);
    assert (Quoted(xs[0]) + (", " + q)) + "]" == Quoted(xs[0]) + (", " + (q + "]"));
  }

  /** The end of the list text with no item left. */
  lemma ReadTailEmpty(p: string)
    requires '\'' !in p
    ensures ReadQuotedItems(p + (QuotedItems([]) + "]")) == []
  {
    assert p + (QuotedItems([]) + "]") == p + "]";
    ReadNone(p + "]");
  }

  /** The end of the list text with the last item before `]`. */
  lemma ReadTailLast(p: string, x: string)
    requires '\'' !in p && QuotableItem(x)
    ensures ReadQuotedItems(p + (QuotedItems([x]) + "]")) == [x]
  {
    assert QuotedItems([x]) + "]" == Quoted(x) + "]";
    ReadQuotedFront(p, x, "]");
    ReadNone("]");
  }

  /** One step of the reading: the first item, then the items after `, `. */
  lemma ReadTailStep(p: string, xs: seq<string>)
    requires '\'' !in p && |xs| > 1 && QuotableItem(xs[0])
    requires ReadQuotedItems(", " + (QuotedItems(xs[1..]) + "]")) == xs[1..]
    ensures ReadQuotedItems(p + (QuotedItems(xs) + "]")) == xs
  {
    var rest := xs[1..];
    var tail := ", " + (QuotedItems(rest) + "]");
    QuotedItemsCons(xs);
    assert p + (QuotedItems(xs) + "]") == p + (Quoted(xs[0]) + tail);
    ReadQuotedFront(p, xs[0], tail);
    assert [xs[0]] + rest == xs;
  }

  lemma {:induction false} ReadQuotedItemsTail(p: string, xs: seq<string>)
    requires '\'' !in p
    requires AllQuotable(xs)
    ensures ReadQuotedItems(p + (QuotedItems(xs) + "]")) == xs
    decreases |xs|
  {
    if xs == [] {
      ReadTailEmpty(p);
    } else if |xs| == 1 {
      assert xs == [xs[0]];
      ReadTailLast(p, xs[0]);
    } else {
      RestQuotable(xs);
      ReadQuotedItemsTail(", ", xs[1..]);
      ReadTailStep(p, xs);
    }
  }

  /** The corrected reader gives back every list of quotable items Python writes,
      commas inside items included. */
  lemma ReadEncode(xs: seq<string>)
    requires AllQuotable(xs)
    ensures ReadQuotedItems(EncodeList(xs)) == xs
  {
    assert EncodeList(xs) == "[" + (QuotedItems(xs) + "]");
    ReadQuotedItemsTail("[", xs);
  }

  lemma HistologyQuotable()
    ensures AllQuotable(["Glomus tumour, malignant"])
  {
    assert QuotableItem("Glomus tumour, malignant");
  }

  /** The Histology choice that the as-written decoder splits reads back whole. */
  lemma HistologyOptionReadsBack()
    ensures ReadQuotedItems(EncodeList(["Glomus tumour, malignant"])) == ["Glomus tumour, malignant"]
  {
    HistologyQuotable();
    ReadEncode(["Glomus tumour, malignant"]);
  }
}
