/**
 * The tile labels (main.js lines 141-152): the name is cut with
 * `split(/(?=[A-Z][^A-Z])/g)` and each fragment is drawn as a `tspan` at
 * x = 4, y = 13 + 10 * i.
 */
module TileLabels {

  predicate IsUpper(c: char)
  {
    'A' <= c <= 'Z'
  }

  /**
   * Position `q` of `s` is cut: the lookahead `[A-Z][^A-Z]` matches there
   * and `q` is not 0 (`split` skips an empty match at the start of what is
   * left). `[^A-Z]` needs a character, so `q + 1` is inside `s`.
   */
  predicate Boundary(s: string, q: int)
  {
    0 < q && q + 1 < |s| && IsUpper(s[q]) && !IsUpper(s[q + 1])
  }

  /** The first cut at or after `q`, or `|s|` when there is none. */
  function NextCut(s: string, q: nat): (c: nat)
    requires 1 <= q <= |s|
    ensures q <= c <= |s|
    ensures c < |s| ==> Boundary(s, c)
    ensures forall k :: q <= k < c ==> !Boundary(s, k)
    decreases |s| - q
  {
    if q == |s| then |s|
    else if Boundary(s, q) then q
    else NextCut(s, q + 1)
  }

  /** `name.split(/(?=[A-Z][^A-Z])/g)`; the empty name splits into one empty fragment. */
  function Split(s: string): (fs: seq<string>)
    ensures |fs| >= 1
    decreases |s|
  {
    if s == "" then [""]
    else
      var c := NextCut(s, 1);
      if c == |s| then [s] else [s[..c]] + Split(s[c..])
  }

  /** The fragments written one after another. */
  function Concat(fs: seq<string>): string
  {
    if fs == [] then "" else fs[0] + Concat(fs[1..])
  }

  /** A fragment that starts a word: an upper-case letter, then a character that is not one. */
  predicate StartsWord(f: string)
  {
    |f| >= 2 && IsUpper(f[0]) && !IsUpper(f[1])
  }

  /** A fragment with no cut point inside it. */
  predicate HasNoCut(f: string)
  {
    forall k :: 0 <= k < |f| ==> !Boundary(f, k)
  }

  /**
   * What the split promises, stated without it: the fragments rebuild the
   * name, none is empty (the empty name gives the single fragment ""),
   * every fragment after the first starts a word, and no fragment contains
   * a cut point.
   */
  ghost predicate IsCamelSplit(s: string, fs: seq<string>)
  {
    && |fs| >= 1
    && Concat(fs) == s
    && (s == "" ==> fs == [""])
    && (s != "" ==> forall i :: 0 <= i < |fs| ==> fs[i] != "")
    && (forall i :: 0 < i < |fs| ==> StartsWord(fs[i]))
    && (forall i :: 0 <= i < |fs| ==> HasNoCut(fs[i]))
  }

  lemma {:induction false} ConcatCons(f: string, fs: seq<string>)
    ensures Concat([f] + fs) == f + Concat(fs)
  {
    assert ([f] + fs)[1..] == fs;
  }

  /** The split meets that description. */
  lemma {:induction false} SplitIsCamelSplit(s: string)
    ensures IsCamelSplit(s, Split(s))
    decreases |s|
  {
    if s != "" {
      var c := NextCut(s, 1);
      if c == |s| {
        assert Concat([s]) == s by { ConcatCons(s, []); }
        assert HasNoCut(s);
      } else {
        SplitIsCamelSplit(s[c..]);
        SplitStep(s, c);
      }
    }
  }

  /** One step of the split: the fragment before the first cut, then the split of the rest. */
  lemma SplitStep(s: string, c: nat)
    requires s != "" && c == NextCut(s, 1) && c < |s|
    requires IsCamelSplit(s[c..], Split(s[c..]))
    ensures IsCamelSplit(s, Split(s))
  {
    var head, tail := s[..c], s[c..];
    HeadHasNoCut(s, c);
    FirstFragmentStartsWord(s, c);
    SplitUnfold(s, c);
    PrependFragment(s, head, tail, Split(tail));
  }

  lemma SplitUnfold(s: string, c: nat)
    requires s != "" && c == NextCut(s, 1) && c < |s|
    ensures Split(s) == [s[..c]] + Split(s[c..])
    ensures s == s[..c] + s[c..]
  {
  }

  /** The fragment before the first cut contains no cut point. */
  lemma HeadHasNoCut(s: string, c: nat)
    requires 1 <= c <= |s|
    requires forall k :: 1 <= k < c ==> !Boundary(s, k)
    ensures HasNoCut(s[..c])
  {
    forall k | 0 <= k < c
      ensures !Boundary(s[..c], k)
    {
      if Boundary(s[..c], k) {
        assert Boundary(s, k);
      }
    }
  }

  /** After a cut at `c`, the next fragment starts with the two characters that made the cut. */
  lemma FirstFragmentStartsWord(s: string, c: nat)
    requires Boundary(s, c)
    ensures StartsWord(Split(s[c..])[0])
  {
    var tail := s[c..];
    var c' := NextCut(tail, 1);
    assert !Boundary(tail, 1) by {
      assert tail[1] == s[c + 1];
    }
    if c' < |tail| {
      assert Split(tail)[0] == tail[..c'];
    } else {
      assert Split(tail)[0] == tail;
    }
  }

  /** Putting a non-empty fragment without cut points before a split of the rest. */
  lemma PrependFragment(s: string, head: string, tail: string, rest: seq<string>)
    requires s == head + tail && head != "" && tail != ""
    requires IsCamelSplit(tail, rest)
    requires HasNoCut(head)
    requires StartsWord(rest[0])
    ensures IsCamelSplit(s, [head] + rest)
  {
    var fs := [head] + rest;
    ConcatCons(head, rest);
    forall i | 0 < i < |fs|
      ensures StartsWord(fs[i]) && HasNoCut(fs[i]) && fs[i] != ""
    {
      assert fs[i] == rest[i - 1];
    }
  }

  /** Only one splitting meets the description: it serves as an independent definition. */
  lemma {:induction false} CamelSplitIsUnique(s: string, fs: seq<string>)
    requires IsCamelSplit(s, fs)
    ensures fs == Split(s)
    decreases |fs|
  {
    if s != "" {
      ConcatCons(fs[0], fs[1..]);
      assert fs == [fs[0]] + fs[1..];
      if |fs| == 1 {
        assert Concat(fs[1..]) == "";
        assert fs[0] == s;
        assert HasNoCut(s);
        assert !Boundary(s, NextCut(s, 1));
      } else {
        var rest := fs[1..];
        DropFirstFragment(s, fs);
        CamelSplitIsUnique(Concat(rest), rest);
      }
    }
  }

  /**
   * In a splitting that meets the description, the first fragment ends at
   * the first cut and the other fragments meet the description for the rest.
   */
  lemma DropFirstFragment(s: string, fs: seq<string>)
    requires IsCamelSplit(s, fs) && |fs| >= 2
    ensures NextCut(s, 1) == |fs[0]|
    ensures s[..|fs[0]|] == fs[0] && s[|fs[0]|..] == Concat(fs[1..])
    ensures IsCamelSplit(Concat(fs[1..]), fs[1..])
  {
    var f := fs[0];
    var c := |f|;
    var rest := fs[1..];
    var tail := Concat(rest);
    ConcatCons(f, rest);
    assert fs == [f] + rest;
    assert s == f + tail;
    ConcatCons(rest[0], rest[1..]);
    assert rest == [rest[0]] + rest[1..];
    assert rest[0] == fs[1];
    assert StartsWord(fs[1]) && HasNoCut(f);
    assert s[c] == fs[1][0] && s[c + 1] == fs[1][1];
    forall k | 1 <= k < c
      ensures !Boundary(s, k)
    {
      if k + 1 < c {
        assert !Boundary(f, k);
      }
    }
    NextCutIsFirst(s, 1, c);
    forall i | 0 <= i < |rest|
      ensures rest[i] != "" && HasNoCut(rest[i]) && (i > 0 ==> StartsWord(rest[i]))
    {
      assert rest[i] == fs[i + 1];
    }
  }

  lemma {:induction false} NextCutIsFirst(s: string, q: nat, c: nat)
    requires 1 <= q <= c < |s|
    requires Boundary(s, c)
    requires forall k :: q <= k < c ==> !Boundary(s, k)
    ensures NextCut(s, q) == c
    decreases c - q
  {
    if q < c {
      NextCutIsFirst(s, q + 1, c);
    }
  }

  /** A name with no cut point after its first character stays whole. */
  lemma NoBoundaryOneFragment(s: string)
    requires forall q :: 0 <= q < |s| ==> !Boundary(s, q)
    ensures Split(s) == [s]
  {
  }

  /** A title with a space is cut before the capital that starts its second word. */
  lemma SplitTitleExample()
    ensures Split("Wii Sports") == ["Wii ", "Sports"]
  {
    var s := "Wii Sports";
    assert Boundary(s, 4);
    assert !Boundary(s, 1) && !Boundary(s, 2) && !Boundary(s, 3);
    NextCutIsFirst(s, 1, 4);
    assert s[..4] == "Wii " && s[4..] == "Sports";
    var t := "Sports";
    assert forall k :: 1 <= k < |t| ==> !IsUpper(t[k]);
    assert NextCut(t, 1) == 6 by {
      NoCutFrom(t, 1);
    }
  }

  /** No cut from `q` on means the next cut is the end. */
  lemma {:induction false} NoCutFrom(s: string, q: nat)
    requires 1 <= q <= |s|
    requires forall k :: q <= k < |s| ==> !IsUpper(s[k])
    ensures NextCut(s, q) == |s|
    decreases |s| - q
  {
    if q < |s| {
      NoCutFrom(s, q + 1);
    }
  }

  /** A run of capitals is cut before its last letter, and digits count as non-capitals. */
  lemma SplitCapitalsExample()
    ensures Split("NBA 2K17") == ["NB", "A 2", "K17"]
  {
    var u := "NBA 2K17";
    assert NextCut(u, 2) == 2;
    assert NextCut(u, 1) == 2;
    assert u[..2] == "NB" && u[2..] == "A 2K17";
    var v := "A 2K17";
    assert NextCut(v, 3) == 3;
    assert NextCut(v, 1) == 3;
    assert v[..3] == "A 2" && v[3..] == "K17";
    assert NextCut("K17", 1) == 3;
  }

  // ---------------------------------------------------------------------
  // The tspans

  /** One line of a tile's label. */
  datatype Tspan = Tspan(x: int, y: int, text: string)

  /** The tspans of a tile: one per fragment, at x = 4 and y = 13 + 10 * i. */
  function LabelLines(name: string): (ls: seq<Tspan>)
    ensures |ls| == |Split(name)|
  {
    var fs := Split(name);
    seq(|fs|, i requires 0 <= i < |fs| => Tspan(4, 13 + 10 * i, fs[i]))
  }

  /** The texts of the lines spell out the name. */
  function LineTexts(ls: seq<Tspan>): seq<string>
  {
    seq(|ls|, i requires 0 <= i < |ls| => ls[i].text)
  }

  /**
   * Line `i` carries fragment `i` at (4, 13 + 10 * i): the first line sits at
   * (4, 13), each next line 10 below the previous, the texts are the
   * fragments in order, and read together they give back the name.
   */
  lemma LabelLinesLayout(name: string)
    ensures |LabelLines(name)| == |Split(name)|
    ensures forall i :: 0 <= i < |LabelLines(name)| ==>
              LabelLines(name)[i] == Tspan(4, 13 + 10 * i, Split(name)[i])
    ensures LabelLines(name)[0] == Tspan(4, 13, Split(name)[0])
    ensures forall i :: 0 < i < |LabelLines(name)| ==>
              LabelLines(name)[i].y == LabelLines(name)[i - 1].y + 10
    ensures LineTexts(LabelLines(name)) == Split(name)
    ensures Concat(LineTexts(LabelLines(name))) == name
  {
    SplitIsCamelSplit(name);
    assert LineTexts(LabelLines(name)) == Split(name);
  }
}
