/**
 * The glob matcher of the shell's test command, against a matcher that is defined by its tokens.
 */
module Glob {
  import opened Ctype

  /** A byte of a string as a signed char. */
  type Char = c: int | -128 <= c < 128 && c != 0 witness 32

  type Text = seq<Char>

  const STAR: Char := 42
  const ANY: Char := 63
  const OPEN: Char := 91
  const CLOSE: Char := 93
  const CARET: Char := 94
  const HASH: Char := 35
  const MINUS: Char := 45
  const PLUS: Char := 43

  /** The first byte of a string, or its terminator. */
  function Head(z: Text): int {
    if z == [] then 0 else z[0]
  }

  function DropSpaces(z: Text): (r: Text)
    ensures |r| <= |z| && !IsSpace(Head(r))
    ensures IsSpace(Head(z)) ==> |r| < |z|
  {
    if IsSpace(Head(z)) then DropSpaces(z[1..]) else z
  }

  // ----- what a pattern says

  datatype Item = Item(lo: int, hi: int)

  /** Never is a list of characters without its closing bracket. */
  datatype Token = Space | Star | Any | Digits | Literal(c: Char) | Class(invert: bool, items: seq<Item>) | Never

  predicate InClass(c: Char, items: seq<Item>) {
    exists i :: 0 <= i < |items| && items[i].lo <= c <= items[i].hi
  }

  datatype ClassText = Unclosed | Closed(items: seq<Item>, rest: Text)

  function Prepend(item: Item, t: ClassText): ClassText {
    if t.Unclosed? then t else Closed([item] + t.items, t.rest)
  }

  /** The list of a bracket, with the character before it that may start a range. */
  function Items(p: Text, prior: int): (t: ClassText)
    ensures t.Closed? ==> |t.rest| < |p|
  {
    if p == [] then Unclosed
    else if p[0] == CLOSE then Closed([], p[1..])
    else if p[0] == MINUS && Head(p[1..]) != CLOSE && Head(p[1..]) != 0 && prior > 0
    then Prepend(Item(prior, p[1]), Items(p[2..], 0))
    else Prepend(Item(p[0], p[0]), Items(p[1..], p[0]))
  }

  /** A closing bracket in first place is an ordinary character. */
  function List(p: Text): (t: ClassText)
    ensures t.Closed? ==> |t.rest| < |p|
  {
    if Head(p) == CLOSE then Prepend(Item(CLOSE, CLOSE), Items(p[1..], 0)) else Items(p, 0)
  }

  /** The inside of a bracket: whether it is inverted and its list. */
  function Bracket(p: Text): (r: (bool, ClassText))
    ensures r.1.Closed? ==> |r.1.rest| < |p|
  {
    if Head(p) == CARET then (true, List(p[1..])) else (false, List(p))
  }

  function Singles(chars: Text): (r: seq<Item>)
    ensures |r| == |chars| && forall i :: 0 <= i < |r| ==> r[i] == Item(chars[i], chars[i])
  {
    seq(|chars|, i requires 0 <= i < |chars| => Item(chars[i], chars[i]))
  }

  lemma {:induction false} PlainItems(chars: Text, rest: Text, prior: int)
    requires CLOSE !in chars && MINUS !in chars
    ensures Items(chars + ([CLOSE] + rest), prior) == Closed(Singles(chars), rest)
  {
    var p := chars + ([CLOSE] + rest);
    if chars == [] {
      assert p == [CLOSE] + rest && Singles(chars) == [];
    } else {
      assert p[1..] == chars[1..] + ([CLOSE] + rest);
      PlainItems(chars[1..], rest, chars[0]);
      assert [Item(chars[0], chars[0])] + Singles(chars[1..]) == Singles(chars);
    }
  }

  /** A list without ranges accepts its characters, or all others when a caret stands in front. */
  lemma PlainList(c: Char, invert: bool, chars: Text, rest: Text)
    requires chars != [] && CLOSE !in chars && MINUS !in chars && chars[0] != CARET
    ensures var r := Bracket((if invert then [CARET] else []) + (chars + ([CLOSE] + rest)));
            r.1.Closed? && r.1.rest == rest && r.0 == invert && (InClass(c, r.1.items) <==> c in chars)
  {
    var p := chars + ([CLOSE] + rest);
    assert ([CARET] + p)[1..] == p && [] + p == p;
    PlainItems(chars, rest, 0);
    var items := Singles(chars);
    if c in chars {
      var i :| 0 <= i < |chars| && chars[i] == c;
      assert items[i].lo <= c <= items[i].hi;
    }
  }

  /** A range accepts what lies between its ends, and its first end even when the ends are the wrong way round. */
  lemma RangeList(c: Char, lo: Char, hi: Char, rest: Text)
    requires lo > 0 && lo != CLOSE && lo != CARET && hi != CLOSE
    ensures var r := Bracket([lo, MINUS, hi, CLOSE] + rest);
            r.1.Closed? && r.1.rest == rest && !r.0 && (InClass(c, r.1.items) <==> c == lo || lo <= c <= hi)
  {
    var p := [lo, MINUS, hi, CLOSE] + rest;
    var p1, p3 := p[1..], p[1..][2..];
    assert p1 == [MINUS, hi, CLOSE] + rest && p3 == [CLOSE] + rest;
    assert Items(p3, 0) == Closed([], rest);
    assert Items(p1, lo) == Prepend(Item(lo, hi), Items(p3, 0));
    var items := [Item(lo, lo)] + ([Item(lo, hi)] + []);
    assert Items(p, 0) == Closed(items, rest);
    assert items[0] == Item(lo, lo) && items[1] == Item(lo, hi);
  }

  /** A character of a list, or a range from one to another. */
  datatype Element = One(c: Char) | Pair(lo: Char, hi: Char)

  function Spelled(e: Element): Text {
    match e case One(c) => [c] case Pair(lo, hi) => [lo, 45, hi]
  }

  /** The character that may start a range behind the element; there is none behind a range. */
  function Starter(e: Element): int {
    match e case One(c) => c case Pair(_, _) => 0
  }

  /** A minus stands where no range can start, or last; a closing bracket does not stand inside. */
  predicate Writable(e: Element, prior: int, last: bool) {
    match e
    case One(c) => c != 93 && (c == 45 ==> prior <= 0 || last)
    case Pair(lo, hi) => lo > 0 && lo != 93 && hi != 93 && (lo == 45 ==> prior <= 0)
  }

  predicate AllWritable(es: seq<Element>, prior: int) {
    es != [] ==> Writable(es[0], prior, |es| == 1) && AllWritable(es[1..], Starter(es[0]))
  }

  function Elements(es: seq<Element>): Text {
    if es == [] then [] else Spelled(es[0]) + Elements(es[1..])
  }

  /** The element says so; the first end of a range counts even when the ends are the wrong way round. */
  predicate Says(e: Element, c: Char) {
    match e
    case One(x) => c == x
    case Pair(lo, hi) => c == lo || lo <= c <= hi
  }

  function ItemsOf(e: Element): seq<Item> {
    match e case One(c) => [Item(c, c)] case Pair(lo, hi) => [Item(lo, lo), Item(lo, hi)]
  }

  function AllItems(es: seq<Element>): seq<Item> {
    if es == [] then [] else ItemsOf(es[0]) + AllItems(es[1..])
  }

  lemma {:induction false} ElementsRead(es: seq<Element>, rest: Text, prior: int)
    requires AllWritable(es, prior)
    ensures Items(Elements(es) + ([CLOSE] + rest), prior) == Closed(AllItems(es), rest)
  {
    if es == [] {
      assert Elements(es) + ([CLOSE] + rest) == [CLOSE] + rest;
    } else {
      hide Items, Spelled, Writable, ItemsOf;
      var more := Elements(es[1..]) + ([CLOSE] + rest);
      ElementsRead(es[1..], rest, Starter(es[0]));
      assert |es| == 1 ==> more == [CLOSE] + rest;
      ElementRead(es[0], more, prior, AllItems(es[1..]), rest);
      Grouped(Spelled(es[0]), Elements(es[1..]), [CLOSE] + rest);
    }
  }

  lemma Grouped(a: Text, b: Text, c: Text)
    ensures (a + b) + c == a + (b + c)
  {
  }

  lemma ElementRead(e: Element, more: Text, prior: int, items: seq<Item>, rest: Text)
    requires Writable(e, prior, Head(more) == CLOSE) && Items(more, Starter(e)) == Closed(items, rest)
    ensures Items(Spelled(e) + more, prior) == Closed(ItemsOf(e) + items, rest)
  {
    hide Items;
    match e
    case One(c) => OneRead(c, more, prior);
    case Pair(lo, hi) =>
      PairRead(lo, hi, more, prior);
      assert [Item(lo, lo)] + ([Item(lo, hi)] + items) == [Item(lo, lo), Item(lo, hi)] + items;
  }

  lemma OneRead(c: Char, more: Text, prior: int)
    requires c != CLOSE && (c == MINUS ==> prior <= 0 || Head(more) == CLOSE)
    ensures Items([c] + more, prior) == Prepend(Item(c, c), Items(more, c))
  {
    assert ([c] + more)[1..] == more;
  }

  lemma RangeRead(lo: Char, hi: Char, more: Text)
    requires lo > 0 && hi != CLOSE
    ensures Items([MINUS, hi] + more, lo) == Prepend(Item(lo, hi), Items(more, 0))
  {
    var p := [MINUS, hi] + more;
    assert p[2..] == more && p[1..] == [hi] + more;
  }

  lemma PairRead(lo: Char, hi: Char, more: Text, prior: int)
    requires lo > 0 && lo != CLOSE && hi != CLOSE && (lo == MINUS ==> prior <= 0)
    ensures Items([lo, MINUS, hi] + more, prior) == Prepend(Item(lo, lo), Prepend(Item(lo, hi), Items(more, 0)))
  {
    hide Items;
    assert [lo, MINUS, hi] + more == [lo] + ([MINUS, hi] + more);
    OneRead(lo, [MINUS, hi] + more, prior);
    RangeRead(lo, hi, more);
  }

  lemma InClassAppend(c: Char, a: seq<Item>, b: seq<Item>)
    ensures InClass(c, a + b) <==> InClass(c, a) || InClass(c, b)
  {
    if i :| 0 <= i < |a| && a[i].lo <= c <= a[i].hi {
      assert (a + b)[i] == a[i];
    }
    if i :| 0 <= i < |b| && b[i].lo <= c <= b[i].hi {
      assert (a + b)[|a| + i] == b[i];
    }
  }

  lemma InClassOf(c: Char, e: Element)
    ensures InClass(c, ItemsOf(e)) <==> Says(e, c)
  {
    match e
    case One(x) =>
      assert ItemsOf(e)[0] == Item(x, x);
    case Pair(lo, hi) =>
      assert ItemsOf(e)[0] == Item(lo, lo) && ItemsOf(e)[1] == Item(lo, hi);
  }

  lemma {:induction false} ItemsTake(c: Char, es: seq<Element>)
    ensures InClass(c, AllItems(es)) <==> exists i :: 0 <= i < |es| && Says(es[i], c)
  {
    hide InClass, Says, ItemsOf;
    if es == [] {
      NothingInClass(c);
    } else {
      ItemsTake(c, es[1..]);
      InClassOf(c, es[0]);
      InClassAppend(c, ItemsOf(es[0]), AllItems(es[1..]));
      assert forall i :: 0 < i < |es| ==> es[i] == es[1..][i - 1];
    }
  }

  /**
   * Any list of characters and ranges, with a closing bracket in first place or without, accepts what one of
   * them says, or with a caret in front everything else.
   */
  lemma ListExactly(c: Char, invert: bool, close: bool, es: seq<Element>, rest: Text)
    requires AllWritable(es, 0) && (close || es != []) && (!invert && !close ==> Head(Elements(es)) != 94)
    ensures var p := (if close then [93] else []) + (Elements(es) + ([93] + rest));
            var r := Bracket((if invert then [94] else []) + p);
            r.1.Closed? && r.1.rest == rest && r.0 == invert
            && (InClass(c, r.1.items) <==> (close && c == 93) || exists i :: 0 <= i < |es| && Says(es[i], c))
  {
    hide InClass, Says, Items, AllWritable;
    var s := Elements(es) + ([CLOSE] + rest);
    var p: Text := (if close then [CLOSE] else []) + s;
    ElementsRead(es, rest, 0);
    ItemsTake(c, es);
    FirstElement(es);
    assert ([CARET] + p)[1..] == p && [] + p == p && [] + s == s && ([CLOSE] + s)[1..] == s;
    if close {
      InClassAppend(c, [Item(CLOSE, CLOSE)], AllItems(es));
      InClassOf(c, One(CLOSE));
      SaysOne(CLOSE, c);
    }
  }

  lemma SaysOne(x: Char, c: Char)
    ensures Says(One(x), c) <==> c == x
  {
  }

  lemma FirstElement(es: seq<Element>)
    requires AllWritable(es, 0)
    ensures es != [] ==> Elements(es) != [] && Elements(es)[0] != CLOSE
  {
  }

  /**
   * The tokens of a pattern. Directly behind a run of '*' and '?' that has a '*' in it, the
   * matcher takes '#' and whitespace literally; as it is documented, it does not.
   */
  function Tokens(p: Text, behindStar: bool, documented: bool): seq<Token>
    decreases |p|
  {
    if p == [] then [] else
    var literally := behindStar && !documented;
    if IsSpace(p[0]) && !literally then [Space] + Tokens(DropSpaces(p), false, documented)
    else if p[0] == STAR then [Star] + Tokens(p[1..], true, documented)
    else if p[0] == ANY then [Any] + Tokens(p[1..], behindStar, documented)
    else if p[0] == OPEN then
      var (invert, t) := Bracket(p[1..]);
      if t.Unclosed? then [Never] else [Class(invert, t.items)] + Tokens(t.rest, false, documented)
    else if p[0] == HASH && !literally then [Digits] + Tokens(p[1..], false, documented)
    else [Literal(p[0])] + Tokens(p[1..], false, documented)
  }

  /** How many digits the subject starts with. */
  function DigitCount(z: Text): (n: nat)
    ensures n <= |z| && forall i :: 0 <= i < n ==> IsDigit(z[i])
    ensures n < |z| ==> !IsDigit(z[n])
  {
    if IsDigit(Head(z)) then 1 + DigitCount(z[1..]) else 0
  }

  /** The length of the number, with its sign, that the subject starts with; 0 for none. */
  function NumberLength(z: Text): (n: nat)
    ensures n <= |z|
  {
    if (Head(z) == MINUS || Head(z) == PLUS) && IsDigit(Head(z[1..])) then 1 + DigitCount(z[1..]) else DigitCount(z)
  }

  /** A '*' takes any part of the subject; numbers and whitespace take all there is; whitespace at the end is ignored. */
  ghost predicate Matches(ts: seq<Token>, z: Text)
    decreases |ts|
  {
    if ts == [] then DropSpaces(z) == []
    else match ts[0]
      case Star => exists k :: 0 <= k <= |z| && Matches(ts[1..], z[k..])
      case Any => z != [] && Matches(ts[1..], z[1..])
      case Literal(c) => z != [] && z[0] == c && Matches(ts[1..], z[1..])
      case Class(invert, items) => z != [] && InClass(z[0], items) != invert && Matches(ts[1..], z[1..])
      case Space => IsSpace(Head(z)) && Matches(ts[1..], DropSpaces(z))
      case Digits => NumberLength(z) > 0 && Matches(ts[1..], z[NumberLength(z)..])
      case Never => false
  }

  /** What the matcher accepts. */
  ghost predicate Accepts(pattern: Text, subject: Text) {
    Matches(Tokens(pattern, false, false), subject)
  }

  // ----- laws of the run behind a star

  lemma StarStar(ts: seq<Token>, z: Text)
    ensures Matches([Star] + ([Star] + ts), z) <==> Matches([Star] + ts, z)
  {
    var one, two := [Star] + ts, [Star] + ([Star] + ts);
    assert one[1..] == ts && two[1..] == one;
    if Matches(one, z) {
      assert Matches(one, z[0..]) by {
        assert z[0..] == z;
      }
    }
    if Matches(two, z) {
      var k :| 0 <= k <= |z| && Matches(one, z[k..]);
      var j :| 0 <= j <= |z[k..]| && Matches(ts, z[k..][j..]);
      assert z[k..][j..] == z[k + j..];
    }
  }

  lemma StarAny(ts: seq<Token>, z: Text)
    ensures Matches([Star] + ([Any] + ts), z) <==> z != [] && Matches([Star] + ts, z[1..])
  {
    var one, two := [Any] + ts, [Star] + ([Any] + ts);
    var star := [Star] + ts;
    assert one[1..] == ts && two[1..] == one && star[1..] == ts;
    if Matches(two, z) {
      var k :| 0 <= k <= |z| && Matches(one, z[k..]);
      assert z[k..][1..] == z[1..][k..];
    }
    if z != [] && Matches(star, z[1..]) {
      var k :| 0 <= k <= |z[1..]| && Matches(ts, z[1..][k..]);
      assert z[k..][1..] == z[1..][k..];
      assert Matches(one, z[k..]);
    }
  }

  lemma StarEnd(z: Text)
    ensures Matches([Star], z)
  {
    assert z[|z|..] == [];
    assert Matches([Star][1..], z[|z|..]);
  }

  /** A star in front of a token that takes one character: it skips this character or it ends here. */
  lemma StarStep(ts: seq<Token>, z: Text)
    ensures Matches([Star] + ts, z) <==> Matches(ts, z) || (z != [] && Matches([Star] + ts, z[1..]))
  {
    var star := [Star] + ts;
    assert star[1..] == ts;
    assert z[0..] == z;
    if Matches(star, z) {
      var k :| 0 <= k <= |z| && Matches(ts, z[k..]);
      if k > 0 {
        assert z[1..][k - 1..] == z[k..];
      }
    }
    if z != [] && Matches(star, z[1..]) {
      var k :| 0 <= k <= |z[1..]| && Matches(ts, z[1..][k..]);
      assert z[1..][k..] == z[k + 1..];
    }
    if Matches(ts, z) {
      assert Matches(ts, z[0..]);
    }
  }

  lemma ItemsStep(p: Text, prior: int)
    requires p != [] && p[0] != CLOSE
    ensures Items(p, prior)
         == if p[0] == MINUS && Head(p[1..]) != CLOSE && Head(p[1..]) != 0 && prior > 0
            then Prepend(Item(prior, p[1]), Items(p[1..][1..], 0))
            else Prepend(Item(p[0], p[0]), Items(p[1..], p[0]))
  {
    hide Prepend;
    assert |p| > 1 ==> p[1..][1..] == p[2..];
  }

  lemma ItemsEnd(p: Text, prior: int)
    requires p == [] || p[0] == CLOSE
    ensures Items(p, prior) == if p == [] then Unclosed else Closed([], p[1..])
  {
  }

  // ----- the matcher

  /** The branch for a bracket: whether c is accepted, and the pattern behind the bracket. */
  method MatchClass(glob: Text, c: Char) returns (ok: bool, zGlob: Text)
    ensures var (invert, t) := Bracket(glob);
            ok <==> t.Closed? && InClass(c, t.items) != invert
    ensures ok ==> zGlob == Bracket(glob).1.rest
  {
    hide InClass, Items;
    NothingInClass(c);
    zGlob := glob;
    var prior, seen, invert := 0, false, false;
    var c2 := Head(zGlob);
    if c2 == CARET {
      invert := true;
      zGlob := zGlob[1..];
      c2 := Head(zGlob);
    }
    ghost var all := List(zGlob);
    ghost var done: seq<Item> := [];
    if c2 == CLOSE {
      if c == CLOSE {
        seen := true;
      }
      InClassMore(c, done, Item(CLOSE, CLOSE));
      done := done + [Item(CLOSE, CLOSE)];
      zGlob := zGlob[1..];
      c2 := Head(zGlob);
    }
    while c2 != 0 && c2 != CLOSE
      invariant c2 == Head(zGlob)
      invariant seen <==> InClass(c, done)
      invariant all == After(done, Items(zGlob, prior))
      decreases |zGlob|
    {
      ghost var item: Item;
      ItemsStep(zGlob, prior);
      if c2 == MINUS && Head(zGlob[1..]) != CLOSE && Head(zGlob[1..]) != 0 && prior > 0 {
        item := Item(prior, zGlob[1]);
        c2 := zGlob[1];
        zGlob := zGlob[1..];
        if c >= prior && c <= c2 {
          seen := true;
        }
        prior := 0;
      } else {
        item := Item(c2, c2);
        if c == c2 {
          seen := true;
        }
        prior := c2;
      }
      zGlob := zGlob[1..];
      AfterMore(done, item, Items(zGlob, prior));
      InClassMore(c, done, item);
      done := done + [item];
      c2 := Head(zGlob);
    }
    ItemsEnd(zGlob, prior);
    assert done + [] == done;
    if c2 == 0 || seen == invert {
      return false, zGlob;
    }
    zGlob := zGlob[1..];
    ok := true;
  }

  function After(done: seq<Item>, t: ClassText): ClassText {
    if t.Unclosed? then t else Closed(done + t.items, t.rest)
  }

  lemma AfterMore(done: seq<Item>, item: Item, t: ClassText)
    ensures After(done, Prepend(item, t)) == After(done + [item], t)
  {
    if t.Closed? {
      assert done + ([item] + t.items) == (done + [item]) + t.items;
    }
  }

  lemma NothingInClass(c: Char)
    ensures !InClass(c, [])
  {
  }

  lemma InClassMore(c: Char, items: seq<Item>, item: Item)
    ensures InClass(c, items + [item]) <==> InClass(c, items) || item.lo <= c <= item.hi
  {
    var more := items + [item];
    if InClass(c, items) {
      var i :| 0 <= i < |items| && items[i].lo <= c <= items[i].hi;
      assert more[i] == items[i];
    }
    assert more[|items|] == item;
  }

  /** testcase_glob */
  method TestcaseGlob(pattern: Text, subject: Text) returns (r: bool)
    ensures r <==> Accepts(pattern, subject)
    decreases |pattern|, 0
  {
    var zGlob, z := pattern, subject;
    while zGlob != []
      invariant |zGlob| <= |pattern|
      invariant Matches(Tokens(pattern, false, false), subject) <==> Matches(Tokens(zGlob, false, false), z)
      decreases |zGlob|
    {
      var c := zGlob[0];
      if IsSpace(c) {
        if !IsSpace(Head(z)) {
          return false;
        }
        zGlob := SkipSpaces(zGlob);
        z := SkipSpaces(z);
      } else if c == STAR {
        r := MatchRun(zGlob[1..], z);
        return;
      } else if c == ANY {
        if z == [] {
          return false;
        }
        zGlob, z := zGlob[1..], z[1..];
      } else if c == OPEN {
        if z == [] {
          return false;
        }
        var ok;
        ok, zGlob := MatchClass(zGlob[1..], z[0]);
        if !ok {
          return false;
        }
        z := z[1..];
      } else if c == HASH {
        if (Head(z) == MINUS || Head(z) == PLUS) && IsDigit(Head(z[1..])) {
          z := z[1..];
        }
        if !IsDigit(Head(z)) {
          return false;
        }
        z := SkipDigits(z);
        zGlob := zGlob[1..];
      } else {
        if c != Head(z) {
          return false;
        }
        zGlob, z := zGlob[1..], z[1..];
      }
    }
    z := SkipSpaces(z);
    r := z == [];
  }

  method SkipSpaces(s: Text) returns (z: Text)
    ensures z == DropSpaces(s)
  {
    z := s;
    while IsSpace(Head(z))
      invariant DropSpaces(z) == DropSpaces(s)
      decreases |z|
    {
      z := z[1..];
    }
  }

  method SkipDigits(s: Text) returns (z: Text)
    ensures z == s[DigitCount(s)..]
  {
    z := s;
    while IsDigit(Head(z))
      invariant |z| <= |s| && z == s[|s| - |z|..]
      invariant DigitCount(s) == |s| - |z| + DigitCount(z)
      decreases |z|
    {
      z := z[1..];
    }
  }

  /** The branch for '*': the rest of the run is taken in, then the next character is searched for. */
  method MatchRun(pattern: Text, subject: Text) returns (r: bool)
    ensures r <==> Matches([Star] + Tokens(pattern, true, false), subject)
    decreases |pattern|, 2
  {
    var zGlob, z := pattern, subject;
    while Head(zGlob) == STAR || Head(zGlob) == ANY
      invariant |zGlob| <= |pattern|
      invariant Matches([Star] + Tokens(pattern, true, false), subject)
            <==> Matches([Star] + Tokens(zGlob, true, false), z)
      decreases |zGlob|
    {
      if zGlob[0] == ANY {
        StarAny(Tokens(zGlob[1..], true, false), z);
        if z == [] {
          return false;
        }
        z := z[1..];
      } else {
        StarStar(Tokens(zGlob[1..], true, false), z);
      }
      zGlob := zGlob[1..];
    }
    ghost var ts := Tokens(zGlob, true, false);
    if zGlob == [] {
      StarEnd(z);
      return true;
    }
    if zGlob[0] == OPEN {
      r := SearchClass(zGlob, z);
    } else {
      r := SearchLiteral(zGlob[0], zGlob[1..], z);
    }
  }

  method SearchClass(zGlob: Text, subject: Text) returns (r: bool)
    requires Head(zGlob) == OPEN
    ensures r <==> Matches([Star] + Tokens(zGlob, true, false), subject)
    decreases |zGlob|, 1
  {
    var z := subject;
    ghost var ts := Tokens(zGlob, true, false);
    var found := false;
    while z != [] && !found
      invariant found ==> Matches([Star] + ts, subject) && z != []
      invariant !found ==> (Matches([Star] + ts, subject) <==> Matches([Star] + ts, z))
      decreases |z|, !found
    {
      StarStep(ts, z);
      found := TestcaseGlob(zGlob, z);
      if !found {
        z := z[1..];
      }
    }
    StarStep(ts, []);
    r := z != [];
  }

  method SearchLiteral(c: Char, zGlob: Text, subject: Text) returns (r: bool)
    ensures r <==> Matches([Star] + ([Literal(c)] + Tokens(zGlob, false, false)), subject)
    decreases |zGlob|, 1
  {
    ghost var ts := [Literal(c)] + Tokens(zGlob, false, false);
    assert ts[1..] == Tokens(zGlob, false, false);
    var z := subject;
    while z != []
      invariant Matches([Star] + ts, subject) <==> Matches([Star] + ts, z)
      decreases |z|
    {
      while z[0] != c
        invariant z != []
        invariant Matches([Star] + ts, subject) <==> Matches([Star] + ts, z)
        decreases |z|
      {
        StarStep(ts, z);
        z := z[1..];
        if z == [] {
          StarStep(ts, z);
          return false;
        }
      }
      StarStep(ts, z);
      z := z[1..];
      r := TestcaseGlob(zGlob, z);
      if r {
        return;
      }
    }
    StarStep(ts, z);
    return false;
  }

  // ----- the tokens by the documentation

  /** No '#' and no whitespace stands directly behind a run of '*' and '?' that has a '*' in it. */
  predicate WellPlaced(p: Text, behindStar: bool)
    decreases |p|
  {
    if p == [] then true
    else if IsSpace(p[0]) then !behindStar && WellPlaced(DropSpaces(p), false)
    else if p[0] == STAR then WellPlaced(p[1..], true)
    else if p[0] == ANY then WellPlaced(p[1..], behindStar)
    else if p[0] == OPEN then
      var t := Bracket(p[1..]).1;
      t.Closed? ==> WellPlaced(t.rest, false)
    else (p[0] == HASH ==> !behindStar) && WellPlaced(p[1..], false)
  }

  /** The matcher reads a pattern as it is documented just when everything is well placed. */
  lemma {:induction false} TokensAsDocumented(p: Text, behindStar: bool)
    ensures Tokens(p, behindStar, false) == Tokens(p, behindStar, true) <==> WellPlaced(p, behindStar)
    decreases |p|
  {
    hide DropSpaces, Bracket;
    if p == [] {
    } else {
      if IsSpace(p[0]) {
        TokensAsDocumented(DropSpaces(p), false);
        SameTail(Space, Tokens(DropSpaces(p), false, false), Tokens(DropSpaces(p), false, true));
        assert behindStar ==> Tokens(p, behindStar, false)[0] != Tokens(p, behindStar, true)[0];
      } else if p[0] == OPEN {
        var (invert, t) := Bracket(p[1..]);
        if t.Closed? {
          TokensAsDocumented(t.rest, false);
          SameTail(Class(invert, t.items), Tokens(t.rest, false, false), Tokens(t.rest, false, true));
        }
      } else {
        var behind := p[0] == STAR || (p[0] == ANY && behindStar);
        TokensAsDocumented(p[1..], behind);
        SameTail(Tokens(p, behindStar, true)[0], Tokens(p[1..], behind, false), Tokens(p[1..], behind, true));
        assert p[0] == HASH && behindStar ==> Tokens(p, behindStar, false)[0] != Tokens(p, behindStar, true)[0];
      }
    }
  }

  lemma SameTail(t: Token, a: seq<Token>, b: seq<Token>)
    ensures [t] + a == [t] + b <==> a == b
  {
    assert ([t] + a)[1..] == a && ([t] + b)[1..] == b;
  }

  /** Whitespace behind a subject that matches does not hurt. */
  lemma {:induction false} TrailingSpace(ts: seq<Token>, z: Text, w: Char)
    requires IsSpace(w) && Matches(ts, z)
    ensures Matches(ts, z + [w])
    decreases |ts|
  {
    DropSpacesAppend(z, w);
    hide DropSpaces, NumberLength, DigitCount, InClass;
    if ts == [] {
    } else {
      var rest := ts[1..];
      if ts[0].Star? {
        var k :| 0 <= k <= |z| && Matches(rest, z[k..]);
        TrailingSpace(rest, z[k..], w);
        assert (z + [w])[k..] == z[k..] + [w];
      } else if ts[0].Space? {
        TrailingSpace(rest, DropSpaces(z), w);
      } else if ts[0].Digits? {
        NumberAppend(z, w);
        var n := NumberLength(z);
        TrailingSpace(rest, z[n..], w);
        assert (z + [w])[n..] == z[n..] + [w];
      } else {
        TrailingSpace(rest, z[1..], w);
        assert (z + [w])[1..] == z[1..] + [w];
      }
    }
  }

  lemma {:induction false} DropSpacesAppend(z: Text, w: Char)
    requires IsSpace(w)
    ensures DropSpaces(z + [w]) == if DropSpaces(z) == [] then [] else DropSpaces(z) + [w]
  {
    if IsSpace(Head(z)) {
      DropSpacesAppend(z[1..], w);
      assert (z + [w])[1..] == z[1..] + [w];
    } else if z == [] {
      assert (z + [w])[1..] == [];
    }
  }

  lemma {:induction false} DigitsAppend(z: Text, w: Char)
    requires IsSpace(w)
    ensures DigitCount(z + [w]) == DigitCount(z)
  {
    if !IsDigit(Head(z)) {
    } else {
      DigitsAppend(z[1..], w);
      assert (z + [w])[1..] == z[1..] + [w];
    }
  }

  lemma NumberAppend(z: Text, w: Char)
    requires IsSpace(w)
    ensures NumberLength(z + [w]) == NumberLength(z)
  {
    DigitsAppend(z, w);
    if z != [] {
      DigitsAppend(z[1..], w);
      assert (z + [w])[1..] == z[1..] + [w];
    }
  }
}
