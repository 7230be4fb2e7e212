/**
 * Schema statements printed with indentation: a first pass in place that squeezes whitespace,
 * a second one that breaks a long statement into lines.
 */
module Pretty {
  import opened Bytes
  import opened Ctype
  import opened Texts

  const LF: byte := 10
  const CR: byte := 13
  const DQUOTE: byte := 34
  const QUOTE: byte := 39
  const LPAREN: byte := 40
  const RPAREN: byte := 41
  const COMMA: byte := 44
  const MINUS: byte := 45
  const SEMI: byte := 59
  const LBRACKET: byte := 91
  const RBRACKET: byte := 93
  const GRAVE: byte := 96

  function Head(z: Text): byte {
    if z == [] then 0 else z[0]
  }

  function NonSpace(z: Text): Text {
    if z == [] then [] else (if IsSpace(z[0]) then [] else [z[0]]) + NonSpace(z[1..])
  }

  lemma NonSpaceCons(c: byte, t: Text)
    ensures NonSpace([c] + t) == (if IsSpace(c) then [] else [c]) + NonSpace(t)
    ensures NonSpace([c]) == if IsSpace(c) then [] else [c]
  {
    assert ([c] + t)[1..] == t && [c][1..] == [];
  }

  lemma {:induction false} NonSpaceAppend(a: Text, b: Text)
    ensures NonSpace(a + b) == NonSpace(a) + NonSpace(b)
  {
    if a == [] {
      assert a + b == b;
    } else {
      hide NonSpace;
      NonSpaceAppend(a[1..], b);
      NonSpaceCons(a[0], a[1..]);
      NonSpaceCons(a[0], a[1..] + b);
      assert a == [a[0]] + a[1..];
      Assoc([a[0]], a[1..], b);
      Assoc(if IsSpace(a[0]) then [] else [a[0]], NonSpace(a[1..]), NonSpace(b));
    }
  }

  lemma {:induction false} NonSpaceOfSpaces(z: Text)
    ensures NonSpace(z[..Spaces(z)]) == []
    ensures NonSpace(DropSpaces(z)) == NonSpace(z)
  {
    if !IsSpace(Head(z)) {
    } else {
      NonSpaceOfSpaces(z[1..]);
      assert z[..Spaces(z)][1..] == z[1..][..Spaces(z[1..])];
      assert z[Spaces(z)..] == z[1..][Spaces(z[1..])..];
    }
  }

  // ----- the first pass

  /** What is left of the whitespace between two characters. */
  function Gap(before: byte, gap: Text, after: byte): (g: Text)
    requires forall i :: 0 <= i < |gap| ==> IsSpace(gap[i])
    ensures NonSpace(g) == []
  {
    if gap == [] || before == LPAREN || after == LPAREN || after == RPAREN then []
    else if |gap| > 1 && gap[0] == CR then [LF]
    else [gap[0]]
  }

  /** The squeezed form of a text that does not start with whitespace. */
  function Squeezed(z: Text): Text {
    if z == [] then [] else
    var rest := DropSpaces(z[1..]);
    if rest == [] then [z[0]] else
    [z[0]] + (Gap(z[0], z[1..][..Spaces(z[1..])], rest[0]) + Squeezed(rest))
  }

  function Tidy(z: Text): Text {
    Squeezed(DropSpaces(z))
  }

  /** Whitespace at the end of what has been squeezed is single, and stands behind something else than '('. */
  predicate Shape(acc: Text) {
    acc != [] && IsSpace(acc[|acc| - 1]) ==> |acc| >= 2 && !IsSpace(acc[|acc| - 2]) && acc[|acc| - 2] != LPAREN
  }

  /** The result, when acc has been squeezed so far and s is still to come. */
  function Resume(acc: Text, s: Text): Text
    requires Shape(acc)
  {
    if acc == [] then Squeezed(s) else
    var w := acc[|acc| - 1];
    var done := acc[..|acc| - 1];
    if !IsSpace(w) then done + Squeezed([w] + s) else
    var rest := DropSpaces(s);
    if rest == [] then done
    else if rest[0] == LPAREN || rest[0] == RPAREN then done + Squeezed(rest)
    else done + ([if w == CR && Spaces(s) > 0 then LF else w] + Squeezed(rest))
  }

  /** One character in the first pass. */
  function SqueezeStep(acc: Text, c: byte): (r: Text)
    requires Shape(acc) && (acc == [] ==> !IsSpace(c))
    ensures Shape(r) && r != [] && |r| <= |acc| + 1
  {
    if acc == [] then [c] else
    var w := acc[|acc| - 1];
    if IsSpace(c) then
      if w == CR then acc[..|acc| - 1] + [LF]
      else if IsSpace(w) || w == LPAREN then acc
      else acc + [c]
    else if (c == LPAREN || c == RPAREN) && IsSpace(w) then acc[..|acc| - 1] + [c]
    else acc + [c]
  }

  lemma SqueezedUnfold(w: byte, s: Text)
    ensures var rest := DropSpaces(s);
            Squeezed([w] + s) == if rest == [] then [w] else [w] + (Gap(w, s[..Spaces(s)], rest[0]) + Squeezed(rest))
  {
    assert ([w] + s)[1..] == s;
    hide Gap, Spaces;
  }

  lemma NothingToDrop(s: Text)
    requires !IsSpace(Head(s))
    ensures Spaces(s) == 0 && DropSpaces(s) == s
  {
  }

  /** The character before is none of whitespace, and this one is not whitespace. */
  lemma StepPlain(done: Text, w: byte, s: Text)
    requires s != [] && !IsSpace(s[0]) && !IsSpace(w)
    ensures done + Squeezed([w] + s) == (done + [w]) + Squeezed(s)
  {
    hide Squeezed, Spaces, DropSpaces;
    SqueezedUnfold(w, s);
    NothingToDrop(s);
    assert s[..0] == [] && [] + Squeezed(s) == Squeezed(s);
    Assoc(done, [w], Squeezed(s));
  }

  lemma SpacesMore(c: byte, t: Text)
    requires IsSpace(c)
    ensures Spaces([c] + t) == 1 + Spaces(t) && DropSpaces([c] + t) == DropSpaces(t)
  {
    assert ([c] + t)[1..] == t;
  }

  /** Whitespace behind '(' is dropped. */
  lemma StepBehindParen(c: byte, t: Text)
    requires IsSpace(c)
    ensures Squeezed([LPAREN] + ([c] + t)) == Squeezed([LPAREN] + t)
  {
    hide Squeezed, Spaces, DropSpaces;
    SqueezedUnfold(LPAREN, t);
    SqueezedUnfold(LPAREN, [c] + t);
    SpacesMore(c, t);
  }

  /** The first whitespace behind another character is kept for now. */
  lemma StepFirstSpace(done: Text, w: byte, c: byte, t: Text)
    requires IsSpace(c) && !IsSpace(w) && w != LPAREN
    ensures Shape(done + [w] + [c])
    ensures Resume(done + [w] + [c], t) == done + Squeezed([w] + ([c] + t))
  {
    hide Squeezed, Spaces, DropSpaces, Gap, Resume;
    SqueezedUnfold(w, [c] + t);
    SpacesMore(c, t);
    ResumeGap(done, w, c, t);
    var rest := DropSpaces(t);
    if rest != [] {
      FirstGap(w, c, t, rest[0]);
      Assoc(done, [w], Gap(w, ([c] + t)[..1 + Spaces(t)], rest[0]) + Squeezed(rest));
    }
  }

  lemma ResumeGap(done: Text, w: byte, c: byte, t: Text)
    requires IsSpace(c) && !IsSpace(w) && w != LPAREN
    ensures Shape(done + [w] + [c])
    ensures var rest := DropSpaces(t);
            Resume(done + [w] + [c], t)
            == if rest == [] then done + [w]
               else if rest[0] == LPAREN || rest[0] == RPAREN then (done + [w]) + ([] + Squeezed(rest))
               else (done + [w]) + ([if c == CR && Spaces(t) > 0 then LF else c] + Squeezed(rest))
  {
    hide Squeezed, Spaces, DropSpaces;
    assert (done + [w] + [c])[..|done| + 1] == done + [w];
    var rest := DropSpaces(t);
    assert [] + Squeezed(rest) == Squeezed(rest);
  }

  lemma FirstGap(w: byte, c: byte, t: Text, next: byte)
    requires IsSpace(c) && w != LPAREN
    ensures forall i :: 0 <= i < 1 + Spaces(t) ==> IsSpace(([c] + t)[i])
    ensures Gap(w, ([c] + t)[..1 + Spaces(t)], next)
         == if next == LPAREN || next == RPAREN then [] else [if c == CR && Spaces(t) > 0 then LF else c]
  {
    var gap := ([c] + t)[..1 + Spaces(t)];
    assert |gap| == 1 + Spaces(t) && gap[0] == c;
  }

  /** Further whitespace is dropped, but it turns CR into LF. */
  lemma StepMoreSpace(done: Text, w: byte, c: byte, t: Text)
    requires IsSpace(c) && IsSpace(w) && Shape(done + [w])
    ensures Shape(done + [if w == CR then LF else w])
    ensures Resume(done + [if w == CR then LF else w], t) == Resume(done + [w], [c] + t)
  {
    hide Squeezed, Spaces, DropSpaces;
    var w' := if w == CR then LF else w;
    assert (done + [w'])[..|done|] == done && (done + [w])[..|done|] == done;
    SpacesMore(c, t);
  }

  lemma StepBehindSpace(done: Text, w: byte, s: Text)
    requires IsSpace(w) && Shape(done + [w]) && s != [] && !IsSpace(s[0])
    ensures Resume(done + [w], s) == (if s[0] == LPAREN || s[0] == RPAREN then done else done + [w]) + Squeezed(s)
  {
    hide Squeezed, Spaces, DropSpaces;
    NothingToDrop(s);
    assert (done + [w])[..|done|] == done;
    Assoc(done, [w], Squeezed(s));
  }

  lemma ResumeBehind(done: Text, w: byte, s: Text)
    requires !IsSpace(w)
    ensures Shape(done + [w]) && Resume(done + [w], s) == done + Squeezed([w] + s)
  {
    hide Squeezed, Spaces, DropSpaces;
    assert (done + [w])[..|done|] == done;
  }

  lemma SqueezeSteps(done: Text, w: byte, c: byte)
    requires Shape(done + [w])
    ensures SqueezeStep(done + [w], c)
         == if IsSpace(c) && w == CR then done + [LF]
            else if IsSpace(c) && (IsSpace(w) || w == LPAREN) then done + [w]
            else if (c == LPAREN || c == RPAREN) && IsSpace(w) then done + [c]
            else (done + [w]) + [c]
  {
    assert (done + [w])[..|done|] == done;
  }

  lemma ResumeFirst(c: byte, t: Text)
    requires !IsSpace(c)
    ensures Shape([]) && Resume(SqueezeStep([], c), t) == Resume([], [c] + t)
  {
    hide Squeezed;
    assert [c][..0] == [] && [] + Squeezed([c] + t) == Squeezed([c] + t);
  }

  lemma ResumeStep(acc: Text, s: Text)
    requires Shape(acc) && s != [] && (acc == [] ==> !IsSpace(s[0]))
    ensures Resume(SqueezeStep(acc, s[0]), s[1..]) == Resume(acc, s)
  {
    hide Squeezed, Gap, Spaces, DropSpaces, Shape, Resume, SqueezeStep;
    var c, t := s[0], s[1..];
    assert s == [c] + t;
    if acc == [] {
      ResumeFirst(c, t);
    } else {
      var w, done := acc[|acc| - 1], acc[..|acc| - 1];
      assert acc == done + [w];
      SqueezeSteps(done, w, c);
      if IsSpace(w) {
        if IsSpace(c) {
          StepMoreSpace(done, w, c, t);
        } else {
          StepBehindSpace(done, w, s);
          ResumeBehind(if c == LPAREN || c == RPAREN then done else acc, c, t);
        }
      } else {
        ResumeBehind(done, w, s);
        if !IsSpace(c) {
          StepPlain(done, w, s);
          ResumeBehind(acc, c, t);
        } else if w == LPAREN {
          StepBehindParen(c, t);
          ResumeBehind(done, w, t);
        } else {
          StepFirstSpace(done, w, c, t);
        }
      }
    }
  }

  lemma ResumeStart(s: Text)
    ensures Shape([]) && Resume([], s) == Squeezed(s)
  {
  }

  /** At the end, one whitespace character may be left to drop. */
  lemma ResumeEnd(acc: Text)
    requires Shape(acc)
    ensures Resume(acc, []) == if acc != [] && IsSpace(acc[|acc| - 1]) then acc[..|acc| - 1] else acc
  {
    if acc != [] && !IsSpace(acc[|acc| - 1]) {
      assert [acc[|acc| - 1]] + [] == [acc[|acc| - 1]];
      assert acc[..|acc| - 1] + [acc[|acc| - 1]] == acc;
    }
  }

  lemma SqueezedNothing()
    ensures Squeezed([]) == [] && NonSpace([]) == []
  {
  }

  /** The first pass keeps everything but whitespace. */
  lemma {:induction false} SqueezedContent(z: Text)
    ensures NonSpace(Squeezed(z)) == NonSpace(z)
    decreases |z|
  {
    hide Squeezed, Gap, Spaces, DropSpaces, NonSpace;
    SqueezedNothing();
    if z == [] {
    } else {
      var s := z[1..];
      var rest := DropSpaces(s);
      assert z == [z[0]] + s;
      SqueezedUnfold(z[0], s);
      SqueezedContent(rest);
      NonSpaceOfSpaces(s);
      NonSpaceAppend([z[0]], s);
      if rest == [] {
        assert NonSpace([z[0]]) + [] == NonSpace([z[0]]);
      } else {
        var g := Gap(z[0], s[..Spaces(s)], rest[0]);
        NonSpaceAppend([z[0]], g + Squeezed(rest));
        NonSpaceAppend(g, Squeezed(rest));
        assert [] + NonSpace(rest) == NonSpace(rest);
      }
    }
  }

  lemma TidyContent(z: Text)
    ensures NonSpace(Tidy(z)) == NonSpace(z)
  {
    NonSpaceOfSpaces(z);
    SqueezedContent(DropSpaces(z));
  }

  /** Squeezing again changes nothing. */
  lemma {:induction false} SqueezedTwice(z: Text)
    requires z != [] ==> !IsSpace(z[0])
    ensures Squeezed(Squeezed(z)) == Squeezed(z)
    ensures z != [] ==> Squeezed(z) != [] && Squeezed(z)[0] == z[0]
    decreases |z|
  {
    if z == [] {
    } else {
      var s := z[1..];
      var rest := DropSpaces(s);
      assert z == [z[0]] + s;
      SqueezedUnfold(z[0], s);
      SqueezedTwice(rest);
      if rest == [] {
        SqueezedUnfold(z[0], []);
        assert [z[0]] + [] == [z[0]];
      } else {
        GapTwice(z[0], s[..Spaces(s)], Squeezed(rest));
      }
    }
  }

  lemma GapTwice(before: byte, gap: Text, r: Text)
    requires forall i :: 0 <= i < |gap| ==> IsSpace(gap[i])
    requires r != [] && !IsSpace(r[0]) && Squeezed(r) == r
    ensures var z := [before] + (Gap(before, gap, r[0]) + r);
            Squeezed(z) == z
  {
    hide Squeezed, Spaces, DropSpaces;
    var g := Gap(before, gap, r[0]);
    SpacesInFront(g, r);
    SqueezedUnfold(before, g + r);
  }

  lemma {:induction false} SpacesInFront(g: Text, r: Text)
    requires (forall i :: 0 <= i < |g| ==> IsSpace(g[i])) && r != [] && !IsSpace(r[0])
    ensures DropSpaces(g + r) == r && (g + r)[..Spaces(g + r)] == g
  {
    if g == [] {
      assert g + r == r;
    } else {
      SpacesInFront(g[1..], r);
      assert (g + r)[1..] == g[1..] + r;
    }
  }

  lemma TidyTwice(z: Text)
    ensures Tidy(Tidy(z)) == Tidy(z)
  {
    SqueezedTwice(DropSpaces(z));
    var r := Tidy(z);
    assert DropSpaces(r) == r;
  }

  // ----- what the first pass leaves alone

  /** Whitespace that is kept: it stands alone inside the text, not behind '(' and not in front of a parenthesis. */
  predicate KeptSpace(z: Text, i: nat)
    requires i < |z|
  {
    && 0 < i < |z| - 1
    && !IsSpace(z[i - 1]) && !IsSpace(z[i + 1])
    && z[i - 1] != LPAREN && z[i + 1] != LPAREN && z[i + 1] != RPAREN
  }

  predicate NoSurplus(z: Text) {
    forall i :: 0 <= i < |z| && IsSpace(z[i]) ==> KeptSpace(z, i)
  }

  /** Whether whitespace is surplus can be seen in two halves that share a character. */
  lemma NoSurplusSplit(a: Text, c: byte, b: Text)
    requires !IsSpace(c)
    ensures NoSurplus(a + [c] + b) <==> NoSurplus(a + [c]) && NoSurplus([c] + b)
  {
    var z, l, r := a + [c] + b, a + [c], [c] + b;
    if NoSurplus(z) {
      forall i | 0 <= i < |l| && IsSpace(l[i])
        ensures KeptSpace(l, i)
      {
        assert z[i] == l[i] && KeptSpace(z, i) && z[i + 1] == l[i + 1];
      }
      forall i | 0 <= i < |r| && IsSpace(r[i])
        ensures KeptSpace(r, i)
      {
        assert z[|a| + i] == r[i] && KeptSpace(z, |a| + i) && z[|a| + i - 1] == r[i - 1] && z[|a| + i + 1] == r[i + 1];
      }
    }
    if NoSurplus(l) && NoSurplus(r) {
      forall i | 0 <= i < |z| && IsSpace(z[i])
        ensures KeptSpace(z, i)
      {
        if i < |a| {
          assert z[i] == l[i] && KeptSpace(l, i) && z[i + 1] == l[i + 1] && z[i - 1] == l[i - 1];
        } else {
          var k := i - |a|;
          assert z[i] == r[k] && KeptSpace(r, k) && z[i + 1] == r[k + 1] && z[i - 1] == r[k - 1];
        }
      }
    }
  }

  /** A single gap between two characters. */
  lemma NoSurplusGap(w: byte, g: Text, c: byte)
    requires !IsSpace(w) && !IsSpace(c) && forall i :: 0 <= i < |g| ==> IsSpace(g[i])
    ensures NoSurplus([w] + (g + [c])) <==> g == Gap(w, g, c)
    ensures NoSurplus([w] + (Gap(w, g, c) + [c]))
  {
    var z := [w] + (g + [c]);
    if |g| == 1 {
      assert z[1] == g[0] && z[2] == c;
    } else if |g| > 1 {
      assert z[1] == g[0] && z[2] == g[1];
    }
  }

  lemma SplitSpaces(s: Text)
    ensures s == s[..Spaces(s)] + DropSpaces(s) && forall i :: 0 <= i < Spaces(s) ==> IsSpace(s[i])
    ensures DropSpaces(s) != [] ==> !IsSpace(DropSpaces(s)[0])
  {
    hide Spaces;
  }

  lemma SurplusEnd(w: byte, gap: Text)
    requires !IsSpace(w) && forall i :: 0 <= i < |gap| ==> IsSpace(gap[i])
    ensures NoSurplus([]) && NoSurplus([w]) && (NoSurplus([w] + gap) ==> gap == [])
  {
    if gap != [] {
      var z := [w] + gap;
      assert IsSpace(z[|z| - 1]) && !KeptSpace(z, |z| - 1);
    }
  }

  /** The first pass leaves no surplus, and leaves alone what has none. */
  lemma {:induction false} SqueezedSurplus(z: Text)
    requires z != [] ==> !IsSpace(z[0])
    ensures NoSurplus(Squeezed(z))
    ensures NoSurplus(z) ==> Squeezed(z) == z
    decreases |z|
  {
    hide Squeezed, Spaces, DropSpaces, NoSurplus, Gap;
    SqueezedNothing();
    SurplusEnd(MINUS, []);
    if z == [] {
    } else {
      var w, s := z[0], z[1..];
      var gap, rest := s[..Spaces(s)], DropSpaces(s);
      SplitSpaces(s);
      SqueezedUnfold(w, s);
      assert z == [w] + s && s == gap + rest;
      if rest == [] {
        SurplusEnd(w, gap);
        assert gap + [] == gap && [w] + [] == [w];
      } else {
        SqueezedSurplus(rest);
        SqueezedHead(rest);
        SurplusStep(w, gap, rest, Squeezed(rest));
      }
    }
  }

  lemma SqueezedHead(z: Text)
    requires z != []
    ensures Squeezed(z) != [] && Squeezed(z)[0] == z[0]
  {
  }

  lemma SurplusStep(w: byte, gap: Text, rest: Text, r: Text)
    requires !IsSpace(w) && rest != [] && !IsSpace(rest[0]) && forall i :: 0 <= i < |gap| ==> IsSpace(gap[i])
    requires r != [] && r[0] == rest[0] && NoSurplus(r) && (NoSurplus(rest) ==> r == rest)
    ensures NoSurplus([w] + (Gap(w, gap, rest[0]) + r))
    ensures NoSurplus([w] + (gap + rest)) ==> [w] + (Gap(w, gap, rest[0]) + r) == [w] + (gap + rest)
  {
    hide NoSurplus, Gap;
    var c, g := rest[0], Gap(w, gap, rest[0]);
    NoSurplusGap(w, gap, c);
    NoSurplusSplit([w] + gap, c, rest[1..]);
    NoSurplusSplit([w] + g, c, r[1..]);
    assert [c] + rest[1..] == rest && [c] + r[1..] == r;
    assert [w] + gap + [c] + rest[1..] == [w] + (gap + rest) && [w] + gap + [c] == [w] + (gap + [c]);
    assert [w] + g + [c] + r[1..] == [w] + (g + r) && [w] + g + [c] == [w] + (g + [c]);
  }

  lemma NoSurplusStart(z: Text)
    requires NoSurplus(z)
    ensures z == [] || !IsSpace(z[0])
  {
    if z != [] {
      assert !KeptSpace(z, 0);
    }
  }

  /** The first pass changes a text just when there is surplus whitespace in it. */
  lemma TidyExactly(z: Text)
    ensures Tidy(z) == z <==> NoSurplus(z)
  {
    SqueezedSurplus(DropSpaces(z));
    if NoSurplus(z) {
      NoSurplusStart(z);
      NothingToDrop(z);
    }
  }

  // ----- string literals

  lemma SqueezedGapped(w: byte, gap: Text, x: Text)
    requires (forall i :: 0 <= i < |gap| ==> IsSpace(gap[i])) && x != [] && !IsSpace(x[0])
    ensures Squeezed([w] + (gap + x)) == [w] + (Gap(w, gap, x[0]) + Squeezed(x))
  {
    hide Squeezed, Spaces, DropSpaces, Gap;
    SpacesInFront(gap, x);
    SqueezedUnfold(w, gap + x);
  }

  lemma SqueezedAlone(c: byte)
    ensures Squeezed([c]) == [c]
  {
    hide Squeezed;
    SqueezedUnfold(c, []);
    assert [c] + [] == [c];
  }

  /** The text in front of a character that is no whitespace, and the text from it on, are squeezed by themselves. */
  lemma {:induction false} SqueezedSplit(a: Text, c: byte, b: Text)
    requires !IsSpace(c) && (a != [] ==> !IsSpace(a[0]))
    ensures Squeezed([c] + b) != [] && Squeezed([c] + b)[0] == c
    ensures Squeezed(a + ([c] + b)) == Squeezed(a + [c]) + Squeezed([c] + b)[1..]
    decreases |a|
  {
    hide Squeezed, Spaces, DropSpaces, Gap;
    SqueezedHead([c] + b);
    var t := Squeezed([c] + b)[1..];
    if a == [] {
      SqueezedAlone(c);
      assert [c] + t == Squeezed([c] + b);
      assert [] + ([c] + b) == [c] + b && [] + [c] == [c];
    } else {
      var w, gap, rest := a[0], a[1..][..Spaces(a[1..])], DropSpaces(a[1..]);
      SplitSpaces(a[1..]);
      assert a == [w] + (gap + rest);
      SqueezedSplit(rest, c, b);
      SqueezedGapped(w, gap, rest + ([c] + b));
      SqueezedGapped(w, gap, rest + [c]);
      Cut3(w, gap, rest, [c] + b);
      Cut3(w, gap, rest, [c]);
      var next := (rest + [c])[0];
      assert (rest + ([c] + b))[0] == next;
      Regroup(w, Gap(w, gap, next), Squeezed(rest + [c]), t);
    }
  }

  lemma Cut3(w: byte, gap: Text, rest: Text, x: Text)
    ensures ([w] + (gap + rest)) + x == [w] + (gap + (rest + x))
  {
  }

  lemma Regroup(w: byte, g: Text, a: Text, b: Text)
    ensures [w] + (g + (a + b)) == ([w] + (g + a)) + b
  {
  }

  /** A string literal without quotes in it. */
  function Literal(body: Text): Text {
    [QUOTE] + body + [QUOTE]
  }

  /**
   * A literal inside a statement is squeezed by itself: what stands before and after it has no say.
   * So the pass leaves it alone just when there is no surplus whitespace in it.
   */
  lemma LiteralExactly(before: Text, body: Text, after: Text)
    ensures Tidy(before + Literal(body) + after)
         == Tidy(before + [QUOTE]) + Squeezed(Literal(body))[1..] + Squeezed([QUOTE] + after)[1..]
    ensures Squeezed(Literal(body)) == Literal(body) <==> NoSurplus(Literal(body))
  {
    hide Squeezed, NoSurplus, Spaces, DropSpaces;
    var lit, a := Literal(body), DropSpaces(before);
    var rest := body + ([QUOTE] + after);
    SqueezedSurplus(lit);
    DropInFront(before, QUOTE, rest);
    DropInFront(before, QUOTE, []);
    assert before + lit + after == before + ([QUOTE] + rest) && [QUOTE] + [] == [QUOTE];
    SqueezedSplit(a, QUOTE, rest);
    SqueezedSplit([QUOTE] + body, QUOTE, after);
    assert [QUOTE] + rest == ([QUOTE] + body) + ([QUOTE] + after) && lit == ([QUOTE] + body) + [QUOTE];
    SqueezedHead(lit);
    SqueezedHead([QUOTE] + after);
    var t := Squeezed([QUOTE] + after)[1..];
    assert (Squeezed(lit) + t)[1..] == Squeezed(lit)[1..] + t;
    Assoc(Squeezed(a + [QUOTE]), Squeezed(lit)[1..], t);
  }

  lemma {:induction false} DropInFront(a: Text, c: byte, b: Text)
    requires !IsSpace(c)
    ensures DropSpaces(a + ([c] + b)) == DropSpaces(a) + ([c] + b)
    ensures DropSpaces(a) != [] ==> !IsSpace(DropSpaces(a)[0])
  {
    var g, r := a[..Spaces(a)], DropSpaces(a);
    assert a == g + r && a + ([c] + b) == g + (r + ([c] + b));
    SpacesInFront(g, r + ([c] + b));
  }

  /** "CREATE TABLE t(x DEFAULT " */
  const BEFORE_DEFAULT: Text :=
    [67, 82, 69, 65, 84, 69, 32, 84, 65, 66, 76, 69, 32, 116, 40, 120, 32, 68, 69, 70, 65, 85, 76, 84, 32]

  /** In CREATE TABLE t(x DEFAULT '  '), the default shrinks to one space. */
  lemma DefaultShrinks()
    ensures Tidy(BEFORE_DEFAULT + Literal([32, 32]) + [RPAREN]) == BEFORE_DEFAULT + Literal([32]) + [RPAREN]
  {
    hide Squeezed, Tidy, NoSurplus, Gap;
    LiteralExactly(BEFORE_DEFAULT, [32, 32], [RPAREN]);
    DefaultFront();
    ShrunkLiteral();
    DefaultBack();
    assert (BEFORE_DEFAULT + [QUOTE]) + Literal([32])[1..] + ([QUOTE] + [RPAREN])[1..]
        == BEFORE_DEFAULT + Literal([32]) + [RPAREN];
  }

  lemma DefaultFront()
    ensures Tidy(BEFORE_DEFAULT + [QUOTE]) == BEFORE_DEFAULT + [QUOTE]
  {
    hide Tidy;
    assert |BEFORE_DEFAULT| == 25;
    TidyExactly(BEFORE_DEFAULT + [QUOTE]);
  }

  lemma ShrunkLiteral()
    ensures Squeezed(Literal([32, 32])) == Literal([32])
  {
    hide Squeezed;
    SqueezedGapped(QUOTE, [32, 32], [QUOTE]);
    SqueezedAlone(QUOTE);
    assert Literal([32, 32]) == [QUOTE] + ([32, 32] + [QUOTE]);
  }

  lemma DefaultBack()
    ensures Squeezed([QUOTE] + [RPAREN]) == [QUOTE] + [RPAREN]
  {
    hide Squeezed;
    SqueezedSurplus([QUOTE] + [RPAREN]);
  }

  // ----- the second pass

  /** What is printed at a time: some text of the statement, and a line end or the final semicolon. */
  datatype Piece = Piece(text: Text, tail: Text)

  /** "CREATE TABLE " */
  const CREATE_TABLE: Text := [67, 82, 69, 65, 84, 69, 32, 84, 65, 66, 76, 69, 32]

  /** "IF NOT EXISTS " */
  const IF_NOT_EXISTS: Text := [73, 70, 32, 78, 79, 84, 32, 69, 88, 73, 83, 84, 83, 32]

  /** The pattern "CREATE TABLE ['\"]*". */
  predicate CreatesQuoted(z: Text) {
    |z| > 13 && z[..13] == CREATE_TABLE && (z[13] == QUOTE || z[13] == DQUOTE)
  }

  /** printSchemaLine */
  function SchemaLine(z: Text): Text {
    if CreatesQuoted(z) then CREATE_TABLE + IF_NOT_EXISTS + z[13..] else z
  }

  function Render(ps: seq<Piece>): Text {
    if ps == [] then [] else (SchemaLine(ps[0].text) + ps[0].tail) + Render(ps[1..])
  }

  /** The pieces without what printSchemaLine inserts and without the tails. */
  function Content(ps: seq<Piece>): Text {
    if ps == [] then [] else ps[0].text + Content(ps[1..])
  }

  /** wsToEol: nothing but whitespace and a comment up to the end of the line. */
  predicate WsToEol(z: Text) {
    z == [] || z[0] == LF || (if IsSpace(z[0]) then WsToEol(z[1..]) else z[0] == MINUS && Head(z[1..]) == MINUS)
  }

  datatype Scan = Scan(cEnd: byte, nParen: int, nLine: nat)

  /** The closing character and the depth after c, when next follows. */
  function ScanChar(st: Scan, c: byte, next: byte): Scan {
    if c == st.cEnd then st.(cEnd := 0)
    else if c == DQUOTE || c == QUOTE || c == GRAVE then st.(cEnd := c)
    else if c == LBRACKET then st.(cEnd := RBRACKET)
    else if c == MINUS && next == MINUS then st.(cEnd := LF)
    else if c == LPAREN then st.(nParen := st.nParen + 1)
    else if c == RPAREN then st.(nParen := st.nParen - 1)
    else st
  }

  /** The line so far is printed before the parenthesis that closes the outermost level. */
  predicate BreaksBefore(line: Text, c: byte, st: Scan) {
    c == RPAREN && st.cEnd != RPAREN && st.nLine > 0 && st.nParen == 1 && line != []
  }

  /** The line is printed after c: st is the state after c, s what follows. */
  predicate BreaksAfter(c: byte, s: Text, st: Scan) {
    st.nParen == 1 && st.cEnd == 0 && (c == LPAREN || c == LF || (c == COMMA && !WsToEol(s)))
  }

  /** The pieces of a long statement; line is what has not been printed yet and s is still to come. */
  function Pieces(line: Text, s: Text, st: Scan): seq<Piece>
    decreases |s|, 1
  {
    if s == [] then [Piece(line, [SEMI, LF])] else
    var c := s[0];
    var st' := ScanChar(st, c, Head(s[1..]));
    var line' := if BreaksBefore(line, c, st) then [] else line;
    (if BreaksBefore(line, c, st) then [Piece(line, [LF])] else []) + PiecesAfter(line', c, s[1..], st')
  }

  /** Character c is added to the line. */
  function PiecesAfter(line: Text, c: byte, s: Text, st: Scan): seq<Piece>
    decreases |s| + 1, 0
  {
    if BreaksAfter(c, s, st)
    then [Piece(if c == LF then line else line + [c], [LF, 32, 32])] + Pieces([], DropSpaces(s), st.(nLine := st.nLine + 1))
    else Pieces(line + [c], s, st)
  }

  /** All pieces but whitespace: the statement. */
  lemma {:induction false} PiecesContent(line: Text, s: Text, st: Scan)
    ensures NonSpace(Content(Pieces(line, s, st))) == NonSpace(line) + NonSpace(s)
    decreases |s|, 1
  {
    if s == [] {
      assert Pieces(line, s, st)[1..] == [] && line + [] == line;
    } else {
      var st' := ScanChar(st, s[0], Head(s[1..]));
      hide ScanChar, NonSpace, Content, PiecesAfter;
      assert s == [s[0]] + s[1..];
      if BreaksBefore(line, s[0], st) {
        var here := PiecesAfter([], s[0], s[1..], st');
        PiecesAfterContent([], s[0], s[1..], st');
        ContentCons(line, [LF], here);
        NonSpaceAppend([], s);
        assert [] + s == s;
      } else {
        PiecesAfterContent(line, s[0], s[1..], st');
        assert [] + PiecesAfter(line, s[0], s[1..], st') == PiecesAfter(line, s[0], s[1..], st');
      }
    }
  }

  lemma {:induction false} PiecesAfterContent(line: Text, c: byte, s: Text, st: Scan)
    ensures NonSpace(Content(PiecesAfter(line, c, s, st))) == NonSpace(line) + NonSpace([c] + s)
    decreases |s| + 1, 0
  {
    NonSpaceOfSpaces(s);
    NonSpaceCons(c, s);
    NonSpaceAppend(line, [c]);
    hide Pieces, NonSpace, Content, WsToEol, Spaces;
    if BreaksAfter(c, s, st) {
      var rest := Pieces([], DropSpaces(s), st.(nLine := st.nLine + 1));
      PiecesContent([], DropSpaces(s), st.(nLine := st.nLine + 1));
      NonSpaceAppend([], DropSpaces(s));
      assert [] + DropSpaces(s) == DropSpaces(s);
      ContentCons(if c == LF then line else line + [c], [LF, 32, 32], rest);
    } else {
      PiecesContent(line + [c], s, st);
    }
    assert [] + NonSpace(s) == NonSpace(s);
    Assoc(NonSpace(line), NonSpace([c]), NonSpace(s));
  }

  /** The text that is pending goes into the first piece. */
  lemma {:induction false} PiecesStart(line: Text, s: Text, st: Scan)
    ensures Pieces(line, s, st) != [] && line <= Pieces(line, s, st)[0].text
    decreases |s|, 1
  {
    if s != [] && !BreaksBefore(line, s[0], st) {
      PiecesAfterStart(line, s[0], s[1..], ScanChar(st, s[0], Head(s[1..])));
    }
  }

  lemma {:induction false} PiecesAfterStart(line: Text, c: byte, s: Text, st: Scan)
    ensures PiecesAfter(line, c, s, st) != [] && line <= PiecesAfter(line, c, s, st)[0].text
    ensures c != LF ==> line + [c] <= PiecesAfter(line, c, s, st)[0].text
    decreases |s| + 1, 0
  {
    hide Pieces, WsToEol, DropSpaces;
    if !BreaksAfter(c, s, st) {
      PiecesStart(line + [c], s, st);
      assert (line + [c])[..|line|] == line;
    }
  }

  /** A line that is not indented starts with the parenthesis that closes the outermost level. */
  predicate Dedents(ps: seq<Piece>) {
    forall i :: 0 <= i < |ps| - 1 && ps[i].tail == [LF] ==> ps[i + 1].text != [] && ps[i + 1].text[0] == RPAREN
  }

  lemma DedentsCons(p: Piece, ps: seq<Piece>)
    requires Dedents(ps) && (p.tail == [LF] ==> ps != [] && [RPAREN] <= ps[0].text)
    ensures Dedents([p] + ps)
  {
    var qs := [p] + ps;
    forall i | 0 <= i < |qs| - 1 && qs[i].tail == [LF]
      ensures qs[i + 1].text != [] && qs[i + 1].text[0] == RPAREN
    {
      assert qs[i + 1] == ps[i];
      if i > 0 {
        assert qs[i] == ps[i - 1];
      }
    }
  }

  lemma {:induction false} PiecesDedent(line: Text, s: Text, st: Scan)
    ensures Dedents(Pieces(line, s, st))
    decreases |s|, 1
  {
    if s != [] {
      var st' := ScanChar(st, s[0], Head(s[1..]));
      var line' := if BreaksBefore(line, s[0], st) then [] else line;
      var here := PiecesAfter(line', s[0], s[1..], st');
      assert Pieces(line, s, st) == (if BreaksBefore(line, s[0], st) then [Piece(line, [LF])] else []) + here;
      hide ScanChar, PiecesAfter, Dedents, Pieces;
      PiecesAfterDedent(line', s[0], s[1..], st');
      if BreaksBefore(line, s[0], st) {
        PiecesAfterStart([], RPAREN, s[1..], st');
        assert [] + [RPAREN] == [RPAREN];
        DedentsCons(Piece(line, [LF]), here);
      }
      assert [] + here == here;
    }
  }

  lemma {:induction false} PiecesAfterDedent(line: Text, c: byte, s: Text, st: Scan)
    ensures Dedents(PiecesAfter(line, c, s, st))
    decreases |s| + 1, 0
  {
    hide Pieces, WsToEol, Dedents, DropSpaces;
    if BreaksAfter(c, s, st) {
      PiecesDedent([], DropSpaces(s), st.(nLine := st.nLine + 1));
      DedentsCons(Piece(if c == LF then line else line + [c], [LF, 32, 32]),
                  Pieces([], DropSpaces(s), st.(nLine := st.nLine + 1)));
    } else {
      PiecesDedent(line + [c], s, st);
    }
  }

  lemma ContentCons(text: Text, tail: Text, ps: seq<Piece>)
    ensures NonSpace(Content([Piece(text, tail)] + ps)) == NonSpace(text) + NonSpace(Content(ps))
  {
    assert ([Piece(text, tail)] + ps)[1..] == ps;
    NonSpaceAppend(text, Content(ps));
  }

  /** Everything that is printed but the tails. */
  function SchemaContent(ps: seq<Piece>): Text {
    if ps == [] then [] else SchemaLine(ps[0].text) + SchemaContent(ps[1..])
  }

  predicate Tails(ps: seq<Piece>) {
    ps != [] && ps[|ps| - 1].tail == [SEMI, LF]
    && forall i :: 0 <= i < |ps| - 1 ==> ps[i].tail == [LF] || ps[i].tail == [LF, 32, 32]
  }

  lemma TailsCons(p: Piece, ps: seq<Piece>)
    requires Tails(ps) && (p.tail == [LF] || p.tail == [LF, 32, 32])
    ensures Tails([p] + ps)
  {
    forall i | 0 <= i < |ps|
      ensures ([p] + ps)[i].tail == [LF] || ([p] + ps)[i].tail == [LF, 32, 32]
    {
      if i > 0 {
        assert ([p] + ps)[i] == ps[i - 1];
      }
    }
  }

  lemma {:induction false} PiecesTails(line: Text, s: Text, st: Scan)
    ensures Tails(Pieces(line, s, st))
    decreases |s|, 1
  {
    if s != [] {
      var st' := ScanChar(st, s[0], Head(s[1..]));
      var line' := if BreaksBefore(line, s[0], st) then [] else line;
      var here := PiecesAfter(line', s[0], s[1..], st');
      hide ScanChar, PiecesAfter, BreaksBefore, Tails;
      PiecesAfterTails(line', s[0], s[1..], st');
      TailsCons(Piece(line, [LF]), here);
      assert [] + here == here;
    }
  }

  lemma {:induction false} PiecesAfterTails(line: Text, c: byte, s: Text, st: Scan)
    ensures Tails(PiecesAfter(line, c, s, st))
    decreases |s| + 1, 0
  {
    hide Pieces, WsToEol, Tails;
    if BreaksAfter(c, s, st) {
      PiecesTails([], DropSpaces(s), st.(nLine := st.nLine + 1));
      TailsCons(Piece(if c == LF then line else line + [c], [LF, 32, 32]),
                Pieces([], DropSpaces(s), st.(nLine := st.nLine + 1)));
    } else {
      PiecesTails(line + [c], s, st);
    }
  }

  lemma {:induction false} RenderContent(ps: seq<Piece>)
    requires Tails(ps)
    ensures NonSpace(Render(ps)) == NonSpace(SchemaContent(ps)) + [SEMI]
    ensures (forall i :: 0 <= i < |ps| ==> !CreatesQuoted(ps[i].text)) ==> SchemaContent(ps) == Content(ps)
  {
    hide NonSpace, CreatesQuoted;
    var text, tail := SchemaLine(ps[0].text), ps[0].tail;
    NonSpaceOfTails();
    if |ps| == 1 {
      assert ps[1..] == [] && text + [] == text && ps[0].text + [] == ps[0].text && text + tail + [] == text + tail;
      NonSpaceAppend(text, tail);
    } else {
      RenderContent(ps[1..]);
      RenderOne(text, tail, Render(ps[1..]), SchemaContent(ps[1..]));
    }
  }

  lemma RenderOne(text: Text, tail: Text, more: Text, content: Text)
    requires NonSpace(tail) == [] && NonSpace(more) == NonSpace(content) + [SEMI]
    ensures NonSpace((text + tail) + more) == NonSpace(text + content) + [SEMI]
  {
    hide NonSpace;
    NonSpaceAppend(text + tail, more);
    NonSpaceAppend(text, tail);
    NonSpaceAppend(text, content);
    Assoc(NonSpace(text), NonSpace(content), [SEMI]);
    assert NonSpace(text) + [] == NonSpace(text);
  }

  lemma NonSpaceOfTails()
    ensures NonSpace([LF]) == [] && NonSpace([LF, 32, 32]) == [] && NonSpace([SEMI, LF]) == [SEMI]
  {
    hide NonSpace;
    NonSpaceCons(32, []);
    NonSpaceCons(LF, []);
    NonSpaceCons(32, [32]);
    NonSpaceCons(LF, [32, 32]);
    NonSpaceCons(SEMI, [LF]);
    assert [LF] + [32, 32] == [LF, 32, 32] && [32] + [32] == [32, 32] && [SEMI] + [LF] == [SEMI, LF];
  }

  /** What printSchemaLine puts in. */
  lemma SchemaLineContent(z: Text)
    requires CreatesQuoted(z)
    ensures NonSpace(SchemaLine(z)) == NonSpace(CREATE_TABLE) + NonSpace(IF_NOT_EXISTS) + NonSpace(z[13..])
    ensures NonSpace(z) == NonSpace(CREATE_TABLE) + NonSpace(z[13..])
  {
    assert z == CREATE_TABLE + z[13..];
    NonSpaceAppend(CREATE_TABLE, z[13..]);
    NonSpaceAppend(CREATE_TABLE + IF_NOT_EXISTS, z[13..]);
    NonSpaceAppend(CREATE_TABLE, IF_NOT_EXISTS);
  }

  // ----- MODE_Pretty

  /** The pieces that are printed for a statement that creates neither a view nor a trigger. */
  function Printed(z: Text): seq<Piece> {
    if |Tidy(z)| >= 79 then Pieces([], Tidy(z), Scan(0, 0, 0)) else [Piece(Tidy(z), [SEMI, LF])]
  }

  /**
   * The printed pieces hold the statement, but for whitespace; the output adds the semicolon and
   * what printSchemaLine puts in.
   */
  lemma PrettyContent(z: Text)
    ensures NonSpace(Content(Printed(z))) == NonSpace(z)
    ensures NonSpace(Render(Printed(z))) == NonSpace(SchemaContent(Printed(z))) + [SEMI]
    ensures (forall i :: 0 <= i < |Printed(z)| ==> !CreatesQuoted(Printed(z)[i].text)) ==>
            NonSpace(Render(Printed(z))) == NonSpace(z) + [SEMI]
  {
    TidyContent(z);
    var t := Tidy(z);
    if |t| >= 79 {
      PiecesContent([], t, Scan(0, 0, 0));
      PiecesTails([], t, Scan(0, 0, 0));
      assert [] + NonSpace(t) == NonSpace(t);
    } else {
      assert t + [] == t;
    }
    RenderContent(Printed(z));
  }

  /** The string that starts at z[0], up to its terminator. */
  function CString(z: Text): Text {
    if z == [] || z[0] == 0 then [] else [z[0]] + CString(z[1..])
  }

  lemma {:induction false} CStringOf(z: Text, n: nat)
    requires n < |z| && NulFree(z[..n]) && z[n] == 0
    ensures CString(z) == z[..n]
  {
    if n == 0 {
    } else {
      assert z[..n][0] == z[0] && z[1..][..n - 1] == z[..n][1..];
      CStringOf(z[1..], n - 1);
    }
  }

  method PrintSchemaLine(z: Text, tail: Text) returns (out: Text)
    ensures out == SchemaLine(z) + tail
  {
    if CreatesQuoted(z) {
      out := CREATE_TABLE + IF_NOT_EXISTS + z[13..] + tail;
    } else {
      out := z + tail;
    }
  }

  /** Prints the first n bytes, with a terminator put behind them for the time being. */
  method PrintSchemaLineN(z: array<byte>, n: nat, tail: Text) returns (out: Text)
    requires n < z.Length && NulFree(z[..n])
    modifies z
    ensures z[..] == old(z[..]) && forall k :: 0 <= k < z.Length ==> z[k] == old(z[k])
    ensures out == SchemaLine(old(z[..n])) + tail
  {
    var c := z[n];
    z[n] := 0;
    CStringOf(z[..], n);
    out := PrintSchemaLine(CString(z[..]), tail);
    z[n] := c;
    assert z[..] == old(z[..]);
  }

  method ComputeWsToEol(z: array<byte>, at: nat, ghost n: nat) returns (r: bool)
    requires at <= n < z.Length && NulFree(z[at..n]) && z[n] == 0
    ensures r == WsToEol(z[at..n])
  {
    var i := at;
    while z[i] != 0
      invariant at <= i <= n && (z[i] == 0 ==> i == n)
      invariant WsToEol(z[at..n]) == WsToEol(z[i..n])
      decreases n - i
    {
      assert z[i..n][0] == z[i] && z[i..n][1..] == z[i + 1..n];
      assert i + 1 < n ==> z[i + 1] == z[at..n][i + 1 - at];
      if z[i] == LF {
        return true;
      }
      if IsSpace(z[i]) {
        i := i + 1;
        continue;
      }
      if z[i] == MINUS && z[i + 1] == MINUS {
        return true;
      }
      return false;
    }
    return true;
  }

  method SkipSpaces(z: array<byte>, at: nat, ghost n: nat) returns (i: nat)
    requires at <= n < z.Length && z[n] == 0
    ensures at <= i <= n && z[i..n] == DropSpaces(z[at..n]) && !IsSpace(z[i])
  {
    hide Spaces, DropSpaces;
    ghost var s := z[at..n];
    i := at;
    while IsSpace(z[i])
      invariant at <= i <= n && s == z[i..n] && DropSpaces(s) == DropSpaces(z[at..n])
      decreases n - i
    {
      SpacesMore(s[0], s[1..]);
      assert s == [s[0]] + s[1..] && s[1..] == z[i + 1..n];
      s := s[1..];
      i := i + 1;
    }
    assert s == [] || s[0] == z[i];
    NothingToDrop(s);
  }

  method SqueezeChar(z: array<byte>, j0: nat, i: nat) returns (j: nat)
    requires j0 <= i < z.Length && z[i] != 0 && NulFree(z[..j0]) && Shape(z[..j0])
    requires j0 == 0 ==> !IsSpace(z[i])
    modifies z
    ensures j <= i + 1 && z[..j] == SqueezeStep(old(z[..j0]), old(z[i]))
    ensures NulFree(z[..j])
    ensures forall k :: i < k < z.Length ==> z[k] == old(z[k])
  {
    j := j0;
    var c := z[i];
    if IsSpace(c) {
      if z[j - 1] == CR {
        z[j - 1] := LF;
      }
      if IsSpace(z[j - 1]) || z[j - 1] == LPAREN {
        return;
      }
    } else if (c == LPAREN || c == RPAREN) && j > 0 && IsSpace(z[j - 1]) {
      j := j - 1;
    }
    z[j] := c;
    j := j + 1;
  }

  /** One round of the loop, when acc has been squeezed and s is still to come. */
  method SqueezeRound(z: array<byte>, j0: nat, i: nat, ghost n: nat, ghost acc: Text, ghost s: Text) returns (j: nat)
    requires j0 <= i < n < z.Length && z[i] != 0 && z[n] == 0
    requires acc == z[..j0] && NulFree(acc) && Shape(acc) && (acc == [] ==> !IsSpace(z[i]))
    requires s == z[i..n]
    modifies z
    ensures 0 < j <= i + 1 && z[n] == 0
    ensures z[..j] == SqueezeStep(acc, s[0]) && NulFree(z[..j])
    ensures s[1..] == z[i + 1..n]
    ensures Resume(z[..j], s[1..]) == Resume(acc, s)
  {
    hide Resume, Shape, SqueezeStep;
    ResumeStep(acc, s);
    j := SqueezeChar(z, j0, i);
  }

  /** The characters from number start on are squeezed to the front; the write index stays behind the read index. */
  method SqueezeLoop(z: array<byte>, start: nat, n: nat) returns (j: nat)
    requires start <= n < z.Length && NulFree(z[start..n]) && z[n] == 0
    requires !IsSpace(z[start])
    modifies z
    ensures j <= n && NulFree(z[..j]) && Shape(z[..j])
    ensures Resume(z[..j], []) == Squeezed(old(z[start..n]))
  {
    hide Resume, Shape, Squeezed, SqueezeStep, IsSpace, NulFree;
    ghost var whole := Squeezed(z[start..n]);
    ghost var acc: Text, s: Text := [], z[start..n];
    ResumeStart(s);
    EndOfText(z, start, n, s);
    NothingNul();
    var i := start;
    j := 0;
    while z[i] != 0
      invariant j <= i <= n
      invariant acc == [] ==> !IsSpace(z[i])
      invariant z[n] == 0 && s == z[i..n] && NulFree(s) && (z[i] == 0 <==> s == [])
      invariant acc == z[..j] && NulFree(acc) && Shape(acc)
      invariant Resume(acc, s) == whole
      decreases n - i
    {
      j := SqueezeRound(z, j, i, n, acc, s);
      NulFreeRest(s);
      acc, s := z[..j], s[1..];
      i := i + 1;
      EndOfText(z, i, n, s);
    }
  }

  lemma EndOfText(z: array<byte>, i: nat, n: nat, s: Text)
    requires i <= n < z.Length && s == z[i..n] && NulFree(s) && z[n] == 0
    ensures z[i] == 0 <==> s == []
  {
    assert s != [] ==> s[0] == z[i];
  }

  lemma NulFreeRest(s: Text)
    requires NulFree(s) && s != []
    ensures NulFree(s[1..])
  {
  }

  lemma NothingNul()
    ensures NulFree([])
  {
  }

  method TrimEnd(z: array<byte>, j0: nat) returns (j: nat)
    requires j0 < z.Length && NulFree(z[..j0]) && Shape(z[..j0])
    modifies z
    ensures j <= j0 && z[j] == 0 && NulFree(z[..j]) && z[..j] == Resume(old(z[..j0]), [])
  {
    hide Resume;
    ResumeEnd(z[..j0]);
    j := j0;
    while j > 0 && IsSpace(z[j - 1])
      invariant j <= j0 && j >= j0 - 1 && z[..j] == old(z[..j])
      invariant j < j0 ==> IsSpace(old(z[j])) && j > 0 && !IsSpace(old(z[j - 1]))
    {
      j := j - 1;
    }
    z[j] := 0;
  }

  /** The first pass: a string of n bytes is squeezed in place. */
  method Squeeze(z: array<byte>, n: nat) returns (j: nat)
    requires n < z.Length && NulFree(z[..n]) && z[n] == 0
    modifies z
    ensures j <= n && z[j] == 0 && NulFree(z[..j])
    ensures z[..j] == Tidy(old(z[..n]))
  {
    hide Resume, Shape, Squeezed;
    assert z[0..n] == z[..n];
    var i := SkipSpaces(z, 0, n);
    j := SqueezeLoop(z, i, n);
    j := TrimEnd(z, j);
  }

  method Strlen(z: array<byte>, ghost n: nat) returns (len: nat)
    requires n < z.Length && NulFree(z[..n]) && z[n] == 0
    ensures len == n
  {
    len := 0;
    assert forall k :: 0 <= k < n ==> z[k] == z[..n][k] != 0;
    while z[len] != 0
      invariant len <= n
      decreases n - len
    {
      len := len + 1;
    }
  }

  lemma RenderPieces(line: Text, c: byte, s: Text, st: Scan)
    ensures var st' := ScanChar(st, c, Head(s));
            Render(Pieces(line, [c] + s, st))
            == (if BreaksBefore(line, c, st) then SchemaLine(line) + [LF] else [])
               + Render(PiecesAfter(if BreaksBefore(line, c, st) then [] else line, c, s, st'))
  {
    var st' := ScanChar(st, c, Head(s));
    assert ([c] + s)[1..] == s;
    hide PiecesAfter, ScanChar, SchemaLine, Head;
    if BreaksBefore(line, c, st) {
      RenderCons(Piece(line, [LF]), PiecesAfter([], c, s, st'));
    } else {
      assert [] + PiecesAfter(line, c, s, st') == PiecesAfter(line, c, s, st');
    }
  }

  lemma RenderAfter(line: Text, c: byte, s: Text, st: Scan)
    ensures Render(PiecesAfter(line, c, s, st))
         == if BreaksAfter(c, s, st)
            then (SchemaLine(if c == LF then line else line + [c]) + [LF, 32, 32])
                 + Render(Pieces([], DropSpaces(s), st.(nLine := st.nLine + 1)))
            else Render(Pieces(line + [c], s, st))
  {
    hide Pieces, WsToEol, SchemaLine, DropSpaces;
    if BreaksAfter(c, s, st) {
      RenderCons(Piece(if c == LF then line else line + [c], [LF, 32, 32]),
                 Pieces([], DropSpaces(s), st.(nLine := st.nLine + 1)));
    }
  }

  lemma RenderLast(line: Text, st: Scan)
    ensures Render(Pieces(line, [], st)) == SchemaLine(line) + [SEMI, LF]
  {
    hide SchemaLine;
    assert [Piece(line, [SEMI, LF])][1..] == [];
    assert (SchemaLine(line) + [SEMI, LF]) + [] == SchemaLine(line) + [SEMI, LF];
  }

  lemma RenderCons(p: Piece, ps: seq<Piece>)
    ensures Render([p] + ps) == (SchemaLine(p.text) + p.tail) + Render(ps)
  {
    assert ([p] + ps)[1..] == ps;
  }

  /** The first half of the loop: the state after z[i], and the line break in front of a closing parenthesis. */
  method ScanAndBreak(z: array<byte>, j0: nat, i: nat, st0: Scan) returns (out: Text, j: nat, st: Scan)
    requires j0 <= i && i + 1 < z.Length && z[i] != 0 && NulFree(z[..j0])
    modifies z
    ensures z[..] == old(z[..])
    ensures st == ScanChar(st0, old(z[i]), old(z[i + 1]))
    ensures if BreaksBefore(old(z[..j0]), old(z[i]), st0) then out == SchemaLine(old(z[..j0])) + [LF] && j == 0
            else out == [] && j == j0
  {
    hide SchemaLine;
    var c := z[i];
    var cEnd, nParen, nLine := st0.cEnd, st0.nParen, st0.nLine;
    out, j := [], j0;
    if c == cEnd {
      cEnd := 0;
    } else if c == DQUOTE || c == QUOTE || c == GRAVE {
      cEnd := c;
    } else if c == LBRACKET {
      cEnd := RBRACKET;
    } else if c == MINUS && z[i + 1] == MINUS {
      cEnd := LF;
    } else if c == LPAREN {
      nParen := nParen + 1;
    } else if c == RPAREN {
      nParen := nParen - 1;
      if nLine > 0 && nParen == 0 && j > 0 {
        out := PrintSchemaLineN(z, j, [LF]);
        j := 0;
      }
    }
    st := Scan(cEnd, nParen, nLine);
  }

  /** The second half, when z[i0] has been added to the line: the line break after it. */
  method BreakBehind(z: array<byte>, j0: nat, i0: nat, ghost n: nat, ghost s: Text, st0: Scan)
    returns (out: Text, j: nat, i: nat, st: Scan)
    requires 0 < j0 <= i0 + 1 <= n < z.Length && NulFree(z[..j0]) && z[n] == 0
    requires s == z[i0 + 1..n] && NulFree(s)
    modifies z
    ensures forall k :: 0 <= k < z.Length ==> z[k] == old(z[k])
    ensures i0 <= i < n && j <= i + 1 && NulFree(z[..j])
    ensures var c, line := old(z[j0 - 1]), old(z[..j0 - 1]);
            if BreaksAfter(c, s, st0)
            then out == SchemaLine(if c == LF then line else old(z[..j0])) + [LF, 32, 32]
                 && j == 0 && st == st0.(nLine := st0.nLine + 1) && s[i - i0..] == DropSpaces(s)
            else out == [] && st == st0 && i == i0 && j == j0 && z[..j] == old(z[..j0])
  {
    hide SchemaLine, BreaksAfter, DropSpaces;
    out, j, i, st := [], j0, i0, st0;
    var c := z[j0 - 1];
    var due := MustBreak(z, i, n, s, c, st);
    if due {
      if c == LF {
        j := j - 1;
      }
      NulFreeFront(z[..j0], j);
      assert z[..j0][..j] == z[..j];
      out := PrintSchemaLineN(z, j, [LF, 32, 32]);
      j := 0;
      st := st.(nLine := st.nLine + 1);
      i := SkipBlanks(z, i0, n, s);
    }
  }

  lemma NulFreeFront(z: Text, k: nat)
    requires NulFree(z) && k <= |z|
    ensures NulFree(z[..k]) && NulFree([])
  {
  }

  method MustBreak(z: array<byte>, i: nat, ghost n: nat, ghost s: Text, c: byte, st: Scan) returns (due: bool)
    requires i + 1 <= n < z.Length && z[n] == 0 && s == z[i + 1..n] && NulFree(s)
    ensures due <==> BreaksAfter(c, s, st)
  {
    hide WsToEol;
    var wsToEol := false;
    if c == COMMA {
      wsToEol := ComputeWsToEol(z, i + 1, n);
    }
    due := st.nParen == 1 && st.cEnd == 0 && (c == LPAREN || c == LF || (c == COMMA && !wsToEol));
  }

  method SkipBlanks(z: array<byte>, i0: nat, ghost n: nat, ghost s: Text) returns (i: nat)
    requires i0 + 1 <= n < z.Length && z[n] == 0 && s == z[i0 + 1..n] && NulFree(s)
    ensures i0 <= i < n && s[i - i0..] == DropSpaces(s)
  {
    hide DropSpaces;
    var next := SkipSpaces(z, i0 + 1, n);
    assert z[next..n] == s[next - 1 - i0..];
    i := next - 1;
  }

  lemma HeadOf(z: array<byte>, i: nat, n: nat, s: Text)
    requires i <= n < z.Length && s == z[i..n] && z[n] == 0
    ensures Head(s) == z[i]
  {
  }

  method StoreChar(z: array<byte>, j: nat, c: byte, ghost from: nat, ghost n: nat)
    requires j < from <= n <= z.Length
    modifies z
    ensures z[..j + 1] == old(z[..j]) + [c] && z[..j] == old(z[..j]) && z[j] == c && z[from..n] == old(z[from..n])
    ensures forall k :: 0 <= k < z.Length && k != j ==> z[k] == old(z[k])
  {
    z[j] := c;
  }

  lemma NulFreeMore(line: Text, c: byte)
    requires NulFree(line) && c != 0
    ensures NulFree(line + [c])
  {
  }

  /** The first half with the character stored: z[..j] is the line that goes on. */
  method ScanAndStore(z: array<byte>, j0: nat, i0: nat, ghost n: nat, ghost s: Text, st0: Scan)
    returns (out: Text, j: nat, st: Scan)
    requires j0 <= i0 < n < z.Length && z[i0] != 0 && NulFree(z[..j0]) && z[n] == 0 && s == z[i0 + 1..n]
    modifies z
    ensures 0 < j <= i0 + 1 && NulFree(z[..j]) && z[j - 1] == old(z[i0]) && s == z[i0 + 1..n]
    ensures forall k :: i0 < k < z.Length ==> z[k] == old(z[k])
    ensures st == ScanChar(st0, old(z[i0]), Head(s))
    ensures if BreaksBefore(old(z[..j0]), old(z[i0]), st0)
            then out == SchemaLine(old(z[..j0])) + [LF] && z[..j - 1] == []
            else out == [] && z[..j - 1] == old(z[..j0])
    ensures z[..j] == z[..j - 1] + [z[j - 1]]
  {
    hide *;
    var c := z[i0];
    HeadOf(z, i0 + 1, n, s);
    NothingNul();
    out, j, st := ScanAndBreak(z, j0, i0, st0);
    ghost var line := z[..j];
    assert z[i0 + 1..n] == s && NulFree(line);
    StoreChar(z, j, c, i0 + 1, n);
    NulFreeMore(line, c);
    j := j + 1;
  }

  /** One round of the loop. */
  method BreakStep(z: array<byte>, j0: nat, i0: nat, ghost n: nat, ghost s: Text, st0: Scan)
    returns (out: Text, j: nat, i: nat, st: Scan)
    requires j0 <= i0 < n < z.Length && z[i0] != 0 && NulFree(z[..j0]) && z[n] == 0
    requires s == z[i0 + 1..n] && NulFree(s)
    modifies z
    ensures i0 <= i < n && j <= i + 1 && NulFree(z[..j])
    ensures forall k :: i0 < k < z.Length ==> z[k] == old(z[k])
    ensures Render(Pieces(old(z[..j0]), [old(z[i0])] + s, st0)) == out + Render(Pieces(z[..j], s[i - i0..], st))
  {
    hide *;
    ghost var line, c := z[..j0], z[i0];
    out, j, st := ScanAndStore(z, j0, i0, n, s, st0);
    ghost var line', st1, text1 := z[..j - 1], st, out;
    var text;
    text, j, i, st := BreakBehind(z, j, i0, n, s, st);
    out := out + text;
    assert s[0..] == s;
    RenderRound(line, c, s, st0, text1, line', st1, text, z[..j], s[i - i0..], st);
  }

  lemma RenderRound(line: Text, c: byte, s: Text, st0: Scan, text1: Text, line1: Text, st1: Scan,
                    text2: Text, line2: Text, s2: Text, st2: Scan)
    requires st1 == ScanChar(st0, c, Head(s))
    requires if BreaksBefore(line, c, st0) then text1 == SchemaLine(line) + [LF] && line1 == []
             else text1 == [] && line1 == line
    requires if BreaksAfter(c, s, st1)
             then text2 == SchemaLine(if c == LF then line1 else line1 + [c]) + [LF, 32, 32]
                  && line2 == [] && s2 == DropSpaces(s) && st2 == st1.(nLine := st1.nLine + 1)
             else text2 == [] && line2 == line1 + [c] && s2 == s && st2 == st1
    ensures Render(Pieces(line, [c] + s, st0)) == (text1 + text2) + Render(Pieces(line2, s2, st2))
  {
    hide Render, Pieces, PiecesAfter, WsToEol, SchemaLine, DropSpaces, BreaksBefore, BreaksAfter, ScanChar;
    RenderPieces(line, c, s, st0);
    RenderAfter(line1, c, s, st1);
    var more := Render(Pieces(line2, s2, st2));
    assert [] + more == more;
    Assoc(text1, text2, more);
  }

  /** The second pass: what is printed on the way; the rest of the statement is left at the start of z. */
  method BreakLines(z: array<byte>, n: nat) returns (out: Text, j: nat)
    requires n < z.Length && NulFree(z[..n]) && z[n] == 0
    modifies z
    ensures j < z.Length && z[j] == 0 && NulFree(z[..j])
    ensures out + (SchemaLine(z[..j]) + [SEMI, LF]) == Render(Pieces([], old(z[..n]), Scan(0, 0, 0)))
  {
    hide Render, Pieces, SchemaLine;
    ghost var all, whole := z[..n], Render(Pieces([], z[..n], Scan(0, 0, 0)));
    out := [];
    var i, st := 0, Scan(0, 0, 0);
    j := 0;
    assert z[..0] == [] && all[0..] == all;
    assert out + whole == whole;
    while z[i] != 0
      invariant j <= i <= n
      invariant forall k :: i <= k < z.Length ==> z[k] == old(z[k])
      invariant NulFree(z[..j])
      invariant out + Render(Pieces(z[..j], all[i..], st)) == whole
      decreases n - i
    {
      ghost var s, i0 := all[i + 1..], i;
      assert i < n && all[i..] == [z[i]] + s && z[i + 1..n] == s;
      var text;
      text, j, i, st := BreakStep(z, j, i, n, s, st);
      Assoc(out, text, Render(Pieces(z[..j], s[i - i0..], st)));
      assert s[i - i0..] == all[i + 1..];
      out := out + text;
      i := i + 1;
    }
    RenderLast(z[..j], st);
    assert all[i..] == [];
    z[j] := 0;
  }

  function Lower(c: byte): byte {
    if 65 <= c <= 90 then c + 32 else c
  }

  /** sqlite3_strlike with a pattern that ends in '%'. */
  predicate StartsLike(prefix: Text, z: Text) {
    |prefix| <= |z| && forall i :: 0 <= i < |prefix| ==> Lower(prefix[i]) == Lower(z[i])
  }

  /** "CREATE VIEW" */
  const CREATE_VIEW: Text := [67, 82, 69, 65, 84, 69, 32, 86, 73, 69, 87]

  /** "CREATE TRIG" */
  const CREATE_TRIG: Text := [67, 82, 69, 65, 84, 69, 32, 84, 82, 73, 71]

  /** MODE_Pretty; the statement is copied into a buffer that the passes change. */
  method PrettyPrint(text: Text) returns (out: Text)
    requires NulFree(text)
    ensures out == if StartsLike(CREATE_VIEW, text) || StartsLike(CREATE_TRIG, text) then text + [SEMI, LF]
                   else Render(Printed(text))
  {
    hide StartsLike, Pieces, SchemaLine;
    if StartsLike(CREATE_VIEW, text) || StartsLike(CREATE_TRIG, text) {
      return text + [SEMI, LF];
    }
    var n := |text|;
    var z := new byte[n + 1](i requires 0 <= i => if i < n then text[i] else 0);
    assert z[..n] == text;
    var j := Squeeze(z, n);
    out := [];
    var len := Strlen(z, j);
    ghost var pieces := Printed(text);
    if len >= 79 {
      out, j := BreakLines(z, len);
    } else {
      assert pieces[1..] == [];
      assert (SchemaLine(z[..j]) + [SEMI, LF]) + [] == SchemaLine(z[..j]) + [SEMI, LF];
    }
    CStringOf(z[..], j);
    assert z[..][..j] == z[..j];
    var last := PrintSchemaLine(CString(z[..]), [SEMI, LF]);
    out := out + last;
  }
}
