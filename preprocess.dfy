/**
 * HTML preprocessing: the whitespace normalisation of `clean_text`, the
 * candidate text blocks found by five CSS selectors, the ranking that keeps
 * the ten best blocks, and the page's title guess. The parsed page is given
 * as its elements in document order, with `script`, `style` and `noscript`
 * already removed.
 */
module Preprocess {
  import opened Wrappers
  import opened Text
  import opened Seqs

  // ---------- clean_text ----------

  /** `re.sub(r'\s+', ' ', s)`: every maximal run of whitespace becomes one space. */
  function Collapse(s: string): (r: string)
    ensures r == [] <==> s == []
    ensures r != [] ==> (IsSpace(r[0]) <==> IsSpace(s[0]))
    ensures Normal(r)
    decreases |s|
  {
    if s == [] then []
    else if IsSpace(s[0]) then
      var rest := Collapse(s[StripStart(s)..]);
      ConsNormal(' ', rest);
      [' '] + rest
    else
      var rest := Collapse(s[1..]);
      ConsNormal(s[0], rest);
      [s[0]] + rest
  }

  /** Putting a character in front of normal text keeps it normal unless it makes a double space. */
  lemma ConsNormal(c: char, rest: string)
    requires Normal(rest)
    requires IsSpace(c) ==> c == ' ' && (rest == [] || !IsSpace(rest[0]))
    ensures Normal([c] + rest)
  {
    var r := [c] + rest;
    forall i | 0 <= i < |r| && IsSpace(r[i])
      ensures r[i] == ' ' && (i + 1 < |r| ==> !IsSpace(r[i + 1]))
    {
      if i > 0 {
        assert r[i] == rest[i - 1];
      }
      if i + 1 < |r| {
        assert r[i + 1] == rest[i];
      }
    }
  }

  /** Whitespace occurs only as single spaces: what `re.sub(r'\s+', ' ', ...)` leaves. */
  ghost predicate Normal(r: string) {
    && (forall i :: 0 <= i < |r| && IsSpace(r[i]) ==> r[i] == ' ')
    && (forall i, j :: 0 <= i < j < |r| && j == i + 1 ==> !(IsSpace(r[i]) && IsSpace(r[j])))
  }

  /** `clean_text(s)`: `None` counts as the empty string. */
  function CleanText(s: Option<string>): (r: string)
    ensures Normal(r)
    ensures r != [] ==> !IsSpace(r[0]) && !IsSpace(r[|r| - 1])
  {
    var c := Collapse(s.GetOr(""));
    NormalSlice(c, StripStart(c), StripEnd(c));
    Strip(c)
  }

  lemma NormalSlice(r: string, i: nat, j: nat)
    requires Normal(r)
    ensures i <= j <= |r| ==> Normal(r[i..j])
  {
    if i <= j <= |r| {
      forall k | 0 <= k < j - i && IsSpace(r[i..j][k])
        ensures r[i..j][k] == ' ' && (k + 1 < j - i ==> !IsSpace(r[i..j][k + 1]))
      {
        assert r[i..j][k] == r[i + k];
        if k + 1 < j - i {
          assert r[i..j][k + 1] == r[i + k + 1];
        }
      }
    }
  }

  /** A string that is already normal is left as it is by Collapse. */
  lemma {:induction false} CollapseNormal(s: string)
    requires Normal(s)
    ensures Collapse(s) == s
    decreases |s|
  {
    if s != [] {
      NormalSlice(s, 1, |s|);
      if IsSpace(s[0]) {
        assert StripStart(s) == 1 by {
          if |s| > 1 {
            assert !IsSpace(s[1]);
          }
        }
        assert s[0] == ' ';
      }
      CollapseNormal(s[1..]);
      assert s == [s[0]] + s[1..];
    }
  }

  /** `clean_text` is idempotent. */
  lemma CleanTextIdempotent(s: Option<string>)
    ensures CleanText(Some(CleanText(s))) == CleanText(s)
  {
    var c := CleanText(s);
    CollapseNormal(c);
    if c != [] {
      StripAt(c, 0, |c|);
    } else {
      StripAt(c, 0, 0);
    }
  }

  /** `clean_text(None)` and `clean_text("")` are both empty. */
  lemma CleanTextOfNothing()
    ensures CleanText(None) == "" && CleanText(Some("")) == ""
  {
    StripAt("", 0, 0);
  }

  /** Not whitespace: the characters `clean_text` passes through unchanged. */
  predicate IsText(c: char) {
    !IsSpace(c)
  }

  lemma {:induction false} TextOfSpace(w: string)
    requires AllSpace(w)
    ensures Filter(w, IsText) == []
    decreases |w|
  {
    if w != [] {
      TextOfSpace(w[1..]);
    }
  }

  /** Collapse keeps every non-space character, in order, and adds none. */
  lemma {:induction false} CollapseKeepsText(s: string)
    ensures Filter(Collapse(s), IsText) == Filter(s, IsText)
    decreases |s|
  {
    if s != [] {
      if IsSpace(s[0]) {
        var i := StripStart(s);
        CollapseKeepsText(s[i..]);
        FilterConcat([' '], Collapse(s[i..]), IsText);
        assert s == s[..i] + s[i..];
        FilterConcat(s[..i], s[i..], IsText);
        TextOfSpace(s[..i]);
      } else {
        CollapseKeepsText(s[1..]);
        FilterConcat([s[0]], Collapse(s[1..]), IsText);
      }
    }
  }

  /** Strip removes only whitespace. */
  lemma StripKeepsText(s: string)
    ensures Filter(Strip(s), IsText) == Filter(s, IsText)
  {
    var a, b := StripSplit(s);
    FilterConcat(a + Strip(s), b, IsText);
    FilterConcat(a, Strip(s), IsText);
    TextOfSpace(a);
    TextOfSpace(b);
  }

  /** `clean_text` keeps the text of its input, in order: only whitespace changes. */
  lemma CleanTextKeepsText(s: Option<string>)
    ensures Filter(CleanText(s), IsText) == Filter(s.GetOr(""), IsText)
  {
    var c := Collapse(s.GetOr(""));
    CollapseKeepsText(s.GetOr(""));
    StripKeepsText(c);
  }

  /** The first non-space character of `a` is also the first of `a + t`. */
  lemma StripStartPrefix(a: string, t: string)
    requires StripStart(a) < |a|
    ensures StripStart(a + t) == StripStart(a)
  {
    var i, x := StripStart(a), a + t;
    assert !IsSpace(x[i]);
    assert forall k :: 0 <= k < i ==> IsSpace(x[k]);
  }

  /** One step of Collapse. */
  lemma CollapseStep(s: string)
    requires s != []
    ensures Collapse(s) == if IsSpace(s[0]) then [' '] + Collapse(s[StripStart(s)..]) else [s[0]] + Collapse(s[1..])
  {
  }

  /**
   * A maximal run `w` of whitespace between `a` and `b` becomes exactly one
   * space, and the two sides are collapsed independently.
   */
  lemma {:induction false} CollapseRun(a: string, w: string, b: string)
    requires a == [] || !IsSpace(a[|a| - 1])
    requires w != [] && AllSpace(w)
    requires b == [] || !IsSpace(b[0])
    ensures Collapse(a + w + b) == Collapse(a) + [' '] + Collapse(b)
    decreases |a|
  {
    if a == [] {
      RunAlone(a, w, b);
    } else {
      var h, i := CollapseHead(a, w, b);
      CollapseRun(a[i..], w, b);
      Regroup3(Collapse(a + w + b), Collapse(a), h, Collapse(a[i..] + w + b), Collapse(a[i..]), Collapse(b));
    }
  }

  /** Text that ends in a non-space character still does after Collapse. */
  lemma {:induction false} CollapseLast(a: string)
    requires a != [] && !IsSpace(a[|a| - 1])
    ensures Collapse(a) != [] && !IsSpace(Collapse(a)[|Collapse(a)| - 1])
    decreases |a|
  {
    CollapseStep(a);
    var i := if IsSpace(a[0]) then StripStart(a) else 1;
    if i < |a| {
      CollapseLast(a[i..]);
      var h: string := if IsSpace(a[0]) then [' '] else [a[0]];
      LastOfConcat(h, Collapse(a[i..]));
    } else {
      assert Collapse(a) == [a[0]] + Collapse([]);
    }
  }

  lemma LastOfConcat(h: string, r: string)
    requires r != []
    ensures (h + r)[|h + r| - 1] == r[|r| - 1]
  {
  }

  /**
   * Inside the text, a maximal whitespace run between two non-empty pieces
   * becomes exactly one space in `clean_text`, and each piece is cleaned as
   * if it stood alone.
   */
  lemma CleanTextRun(a: string, w: string, b: string)
    requires a != [] && !IsSpace(a[|a| - 1])
    requires w != [] && AllSpace(w)
    requires b != [] && !IsSpace(b[0])
    ensures CleanText(Some(a + w + b)) == CleanText(Some(a)) + " " + CleanText(Some(b))
  {
    CollapseRun(a, w, b);
    CollapseLast(a);
    StripJoin(Collapse(a), Collapse(b));
  }

  /** Joining text that ends and text that starts with a non-space by one space commutes with Strip. */
  lemma StripJoin(x: string, y: string)
    requires x != [] && !IsSpace(x[|x| - 1])
    requires y != [] && !IsSpace(y[0])
    ensures Strip(x + [' '] + y) == Strip(x) + " " + Strip(y)
  {
    var p := StripLeading(x);
    var q := StripTrailing(y);
    var m := Strip(x) + " " + Strip(y);
    assert m[0] == Strip(x)[0] && m[|m| - 1] == Strip(y)[|Strip(y)| - 1];
    assert x + [' '] + y == p + m + q;
    StripAtSplit(p, m, q);
  }

  /** Text ending in a non-space character is leading whitespace followed by its non-empty Strip. */
  lemma StripLeading(x: string) returns (p: string)
    requires x != [] && !IsSpace(x[|x| - 1])
    ensures AllSpace(p) && x == p + Strip(x) && Strip(x) != []
  {
    var q;
    p, q := StripSplit(x);
  }

  /** Text starting with a non-space character is its non-empty Strip followed by trailing whitespace. */
  lemma StripTrailing(y: string) returns (q: string)
    requires y != [] && !IsSpace(y[0])
    ensures AllSpace(q) && y == Strip(y) + q && Strip(y) != []
  {
    var p;
    p, q := StripSplit(y);
  }

  /** Sequence algebra for the steps of CollapseRun. */
  lemma Regroup3(x: string, y: string, h: string, rx: string, ry: string, c: string)
    requires x == h + rx && y == h + ry && rx == ry + [' '] + c
    ensures x == y + [' '] + c
  {
  }

  /**
   * The first step of Collapse on `a` when `w + b` follows: it emits `h`
   * for the first character or whitespace run of `a`, which ends inside `a`.
   */
  lemma CollapseHead(a: string, w: string, b: string) returns (h: string, i: nat)
    requires a != [] && !IsSpace(a[|a| - 1])
    ensures 0 < i <= |a|
    ensures Collapse(a + w + b) == h + Collapse(a[i..] + w + b)
    ensures Collapse(a) == h + Collapse(a[i..])
  {
    var t := w + b;
    if IsSpace(a[0]) {
      i := StripStart(a);
      h := [' '];
      RunAfterSpace(a, t, i);
    } else {
      i := 1;
      h := [a[0]];
      RunAfterText(a, t);
    }
    Assoc(a, w, b);
    Assoc(a[i..], w, b);
  }

  lemma Assoc(x: string, y: string, z: string)
    ensures x + y + z == x + (y + z)
  {
  }

  /** Collapse past a leading non-space character. */
  lemma RunAfterText(a: string, t: string)
    requires a != [] && !IsSpace(a[0])
    ensures Collapse(a + t) == [a[0]] + Collapse(a[1..] + t)
    ensures Collapse(a) == [a[0]] + Collapse(a[1..])
  {
    var x := a + t;
    assert x[0] == a[0];
    assert x[1..] == a[1..] + t;
  }

  /** Collapse past a leading whitespace run that ends inside `a`. */
  lemma RunAfterSpace(a: string, t: string, i: nat)
    requires a != [] && IsSpace(a[0]) && i == StripStart(a) < |a|
    ensures Collapse(a + t) == [' '] + Collapse(a[i..] + t)
    ensures Collapse(a) == [' '] + Collapse(a[i..])
  {
    var x := a + t;
    assert x[0] == a[0];
    StripStartPrefix(a, t);
    assert x[i..] == a[i..] + t;
  }

  /** A whitespace run at the very start becomes one space. */
  lemma RunAlone(a: string, w: string, b: string)
    requires a == []
    requires w != [] && AllSpace(w)
    requires b == [] || !IsSpace(b[0])
    ensures Collapse(a + w + b) == Collapse(a) + [' '] + Collapse(b)
  {
    var x := a + w + b;
    assert x == w + b;
    assert StripStart(x) == |w| by {
      assert forall k :: 0 <= k < |w| ==> IsSpace(x[k]);
      if b != [] {
        assert x[|w|] == b[0];
      }
    }
    assert x[|w|..] == b;
    CollapseStep(x);
  }

  // ---------- iter_candidate_blocks ----------

  /** An element of the page: its tag name, its `role` attribute (`""` when absent), `get_text(" ")` and its number of `<p>` descendants. */
  datatype Element = Element(tag: string, role: string, text: string, pCount: nat)

  /** A candidate block as written to the JSONL file. */
  datatype Block = Block(selector: string, length: nat, pCount: nat, text: string)

  /** The selectors in the order they are tried. */
  const SELECTORS: seq<string> := ["main", "article", "[role='main']", "section", "div"]

  /** The cap on a block's text. */
  const TEXT_CAP: nat := 20000

  /** Whether `soup.select(sel)` matches `el`. */
  predicate Selects(sel: string, el: Element) {
    if sel == "[role='main']" then el.role == "main" else el.tag == sel
  }

  /** The block an element yields for a selector, `None` when its cleaned text is empty. */
  function BlockOf(sel: string, el: Element): (r: Option<Block>)
    ensures r.Some? <==> CleanText(Some(el.text)) != ""
    ensures r.Some? ==> r.value.selector == sel && r.value.pCount == el.pCount && r.value.length == |CleanText(Some(el.text))|
    ensures r.Some? ==> r.value.text == Prefix(CleanText(Some(el.text)), TEXT_CAP)
  {
    var text := CleanText(Some(el.text));
    if text == "" then None else Some(Block(sel, |text|, el.pCount, Prefix(text, TEXT_CAP)))
  }

  /** The block an element yields for a selector it matches; `None` when it does not match. */
  function Matched(sel: string): Element -> Option<Block> {
    el => if Selects(sel, el) then BlockOf(sel, el) else None
  }

  /** The blocks of the elements one selector matches, in document order. */
  function SelectorBlocks(sel: string, els: seq<Element>): seq<Block> {
    Choose(els, Matched(sel))
  }

  /** The blocks of several selectors, selector after selector. */
  function ScanBlocks(sels: seq<string>, els: seq<Element>): seq<Block>
    decreases |sels|
  {
    if sels == [] then [] else ScanBlocks(sels[..|sels| - 1], els) + SelectorBlocks(sels[|sels| - 1], els)
  }

  /** `iter_candidate_blocks(soup)`, collected into a list. */
  method CandidateBlocks(els: seq<Element>) returns (blocks: seq<Block>)
    ensures blocks == ScanBlocks(SELECTORS, els)
  {
    blocks := [];
    for i := 0 to |SELECTORS|
      invariant blocks == ScanBlocks(SELECTORS[..i], els)
    {
      var sel := SELECTORS[i];
      assert SELECTORS[..i + 1][..i] == SELECTORS[..i];
      ghost var start := blocks;
      for j := 0 to |els|
        invariant blocks == start + SelectorBlocks(sel, els[..j])
      {
        assert els[..j + 1][..j] == els[..j];
        var el := els[j];
        if !Selects(sel, el) {
          continue;
        }
        var text := CleanText(Some(el.text));
        if text == "" {
          continue;
        }
        blocks := blocks + [Block(sel, |text|, el.pCount, Prefix(text, TEXT_CAP))];
      }
      assert els[..|els|] == els;
    }
    assert SELECTORS[..|SELECTORS|] == SELECTORS;
  }

  /**
   * A selector yields exactly one block per matching element whose cleaned
   * text is not empty: every block comes from such an element, and every
   * such element gives its block.
   */
  lemma SelectorBlocksFrom(sel: string, els: seq<Element>)
    ensures forall b :: b in SelectorBlocks(sel, els) <==>
      exists el :: el in els && Selects(sel, el) && BlockOf(sel, el) == Some(b)
    ensures |SelectorBlocks(sel, els)| <= |els|
  {
    ChooseMembers(els, Matched(sel));
    forall b ensures b in SelectorBlocks(sel, els) <==>
      exists el :: el in els && Selects(sel, el) && BlockOf(sel, el) == Some(b)
    {
      if b in SelectorBlocks(sel, els) {
        var el :| el in els && Matched(sel)(el) == Some(b);
        assert Selects(sel, el) && BlockOf(sel, el) == Some(b);
      }
      if exists el :: el in els && Selects(sel, el) && BlockOf(sel, el) == Some(b) {
        var el :| el in els && Selects(sel, el) && BlockOf(sel, el) == Some(b);
        assert Matched(sel)(el) == Some(b);
      }
    }
  }

  /** The position of a selector in SELECTORS. */
  function Rank(sel: string): nat {
    if sel == "main" then 0
    else if sel == "article" then 1
    else if sel == "[role='main']" then 2
    else if sel == "section" then 3
    else 4
  }

  /** All blocks of the first `n` selectors come from those selectors, in selector order. */
  lemma {:induction false} ScanOrder(n: nat, els: seq<Element>)
    requires n <= |SELECTORS|
    ensures forall b :: b in ScanBlocks(SELECTORS[..n], els) ==> Rank(b.selector) < n
    ensures forall i, j :: 0 <= i < j < |ScanBlocks(SELECTORS[..n], els)| ==>
      Rank(ScanBlocks(SELECTORS[..n], els)[i].selector) <= Rank(ScanBlocks(SELECTORS[..n], els)[j].selector)
  {
    if n > 0 {
      var sels := SELECTORS[..n];
      assert sels[..n - 1] == SELECTORS[..n - 1];
      ScanOrder(n - 1, els);
      var a := ScanBlocks(SELECTORS[..n - 1], els);
      var b := SelectorBlocks(SELECTORS[n - 1], els);
      SelectorBlocksFrom(SELECTORS[n - 1], els);
      assert Rank(SELECTORS[n - 1]) == n - 1;
      assert forall x :: x in b ==> Rank(x.selector) == n - 1;
      var r := a + b;
      assert ScanBlocks(sels, els) == r;
      forall i, j | 0 <= i < j < |r| ensures Rank(r[i].selector) <= Rank(r[j].selector) {
        if j >= |a| {
          assert r[j] == b[j - |a|];
          if i < |a| {
            assert r[i] == a[i];
          } else {
            assert r[i] == b[i - |a|];
          }
        } else {
          assert r[i] == a[i] && r[j] == a[j];
        }
      }
      assert forall x :: x in r <==> x in a || x in b;
    }
  }

  /**
   * The candidate blocks are emitted selector by selector in the order
   * `main`, `article`, `[role='main']`, `section`, `div`; each has non-empty
   * text of at most TEXT_CAP characters, and its length is that of the full
   * cleaned text, so it is never less than the length of its text.
   */
  lemma CandidateBlocksProps(els: seq<Element>)
    ensures forall i, j :: 0 <= i < j < |ScanBlocks(SELECTORS, els)| ==>
      Rank(ScanBlocks(SELECTORS, els)[i].selector) <= Rank(ScanBlocks(SELECTORS, els)[j].selector)
    ensures forall b :: b in ScanBlocks(SELECTORS, els) ==>
      b.selector in SELECTORS && b.text != "" && |b.text| <= TEXT_CAP && |b.text| <= b.length
  {
    ScanOrder(|SELECTORS|, els);
    assert SELECTORS[..|SELECTORS|] == SELECTORS;
    forall b | b in ScanBlocks(SELECTORS, els)
      ensures b.selector in SELECTORS && b.text != "" && |b.text| <= TEXT_CAP && |b.text| <= b.length
    {
      ScanMembers(|SELECTORS|, els, b);
    }
  }

  /** A block of the scan comes from one of the selectors and a matching element. */
  lemma {:induction false} ScanMembers(n: nat, els: seq<Element>, b: Block)
    requires n <= |SELECTORS|
    requires b in ScanBlocks(SELECTORS[..n], els)
    ensures exists k, el :: 0 <= k < n && el in els && Selects(SELECTORS[k], el) && BlockOf(SELECTORS[k], el) == Some(b)
    ensures b.selector in SELECTORS && b.text != "" && |b.text| <= TEXT_CAP && |b.text| <= b.length
  {
    var sels := SELECTORS[..n];
    assert sels[..n - 1] == SELECTORS[..n - 1];
    assert ScanBlocks(sels, els) == ScanBlocks(SELECTORS[..n - 1], els) + SelectorBlocks(SELECTORS[n - 1], els);
    if b in ScanBlocks(SELECTORS[..n - 1], els) {
      ScanMembers(n - 1, els, b);
    } else {
      SelectorBlocksFrom(SELECTORS[n - 1], els);
      var el :| el in els && Selects(SELECTORS[n - 1], el) && BlockOf(SELECTORS[n - 1], el) == Some(b);
      BlockFacts(SELECTORS[n - 1], el, b);
    }
  }

  /** A block has the selector it was found by and non-empty text of at most TEXT_CAP characters, no longer than its length. */
  lemma BlockFacts(sel: string, el: Element, b: Block)
    requires BlockOf(sel, el) == Some(b)
    ensures b.selector == sel && b.text != "" && |b.text| <= TEXT_CAP && |b.text| <= b.length
  {
  }

  // ---------- ranking ----------

  /** `key=(p_count, length)` with `reverse=True`: more paragraphs first, then longer text. */
  predicate RankBefore(a: Block, b: Block) {
    a.pCount > b.pCount || (a.pCount == b.pCount && a.length >= b.length)
  }

  lemma RankBeforeIsPreorder()
    ensures TotalPreorder(RankBefore)
  {
  }

  /** How many blocks are kept. */
  const TOP_N: nat := 10

  /** `sorted(blocks, key=(p_count, length), reverse=True)[:10]`. */
  function TopBlocks(blocks: seq<Block>): seq<Block> {
    Take(Sort(blocks, RankBefore), TOP_N)
  }

  /**
   * At most ten blocks are kept, best first; every block left out ranks no
   * higher than any kept one, and blocks that tie keep their scan order.
   */
  lemma TopBlocksProps(blocks: seq<Block>, c: Block)
    ensures |TopBlocks(blocks)| <= TOP_N && |TopBlocks(blocks)| == if |blocks| < TOP_N then |blocks| else TOP_N
    ensures SortedBy(TopBlocks(blocks), RankBefore)
    ensures multiset(TopBlocks(blocks)) <= multiset(blocks)
    ensures forall b, k :: b in multiset(blocks) - multiset(TopBlocks(blocks)) && k in TopBlocks(blocks) ==> RankBefore(k, b)
    ensures |Ties(TopBlocks(blocks), RankBefore, c)| <= |Ties(blocks, RankBefore, c)|
    ensures Ties(TopBlocks(blocks), RankBefore, c) == Ties(blocks, RankBefore, c)[..|Ties(TopBlocks(blocks), RankBefore, c)|]
  {
    RankBeforeIsPreorder();
    var s := Sort(blocks, RankBefore);
    SortSorted(blocks, RankBefore);
    SortStable(blocks, RankBefore, c);
    TakeOfSorted(s, TOP_N, RankBefore);
    TakeTies(s, TOP_N, RankBefore, c);
  }

  // ---------- preprocess_one ----------

  /**
   * The title guess: the cleaned `<title>` string when the page has one
   * (`titleString`, `None` when `soup.title.string` is), replaced by the
   * cleaned text of the first `<h1>` when that is empty.
   */
  function TitleGuess(titleString: Option<string>, h1: Option<string>): (r: Option<string>)
    ensures r.Some? ==> Normal(r.value)
    ensures titleString.Some? && CleanText(titleString) != "" ==> r == Some(CleanText(titleString))
    ensures (titleString.None? || CleanText(titleString) == "") && h1.Some? ==> r == Some(CleanText(h1))
    ensures (titleString.None? || titleString == Some("")) && h1.None? ==> r.None?
    ensures titleString.Some? && titleString != Some("") && CleanText(titleString) == "" && h1.None? ==> r == Some("")
  {
    var title := if titleString.Some? && titleString.value != "" then Some(CleanText(titleString)) else None;
    CleanTextOfNothing();
    if (title.None? || title.value == "") && h1.Some? then Some(CleanText(h1)) else title
  }

  /** A line of the JSONL output: the page's meta and one block. */
  datatype Record = Record(titleGuess: Option<string>, block: Block)

  /** `preprocess_one`: the records written, one per kept block, all with the same meta. */
  method PreprocessOne(els: seq<Element>, titleString: Option<string>, h1: Option<string>) returns (records: seq<Record>)
    ensures |records| == |TopBlocks(ScanBlocks(SELECTORS, els))|
    ensures forall i :: 0 <= i < |records| ==>
      records[i] == Record(TitleGuess(titleString, h1), TopBlocks(ScanBlocks(SELECTORS, els))[i])
  {
    var blocks := CandidateBlocks(els);
    blocks := Take(Sort(blocks, RankBefore), TOP_N);
    var meta := TitleGuess(titleString, h1);
    records := [];
    for i := 0 to |blocks|
      invariant |records| == i
      invariant forall k :: 0 <= k < i ==> records[k] == Record(meta, blocks[k])
    {
      records := records + [Record(meta, blocks[i])];
    }
  }
}
