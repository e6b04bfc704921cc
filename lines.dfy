/**
 * Text as lines: a report is built by appending strings that each end in
 * "\n". JoinLines is that concatenation; SplitLines reads the lines back.
 */
module Lines {

  predicate NoNewline(l: string) {
    '\n' !in l
  }

  /** Every line followed by "\n", one after the other. */
  function JoinLines(ls: seq<string>): string {
    if ls == [] then [] else ls[0] + "\n" + JoinLines(ls[1..])
  }

  /** The index of the first "\n" in `s`, or |s| when there is none. */
  function IndexOfNewline(s: string): (i: nat)
    ensures i <= |s|
    ensures i < |s| ==> s[i] == '\n'
    ensures forall j :: 0 <= j < i ==> s[j] != '\n'
  {
    if s == [] || s[0] == '\n' then 0 else 1 + IndexOfNewline(s[1..])
  }

  /** The lines of `s`, without their "\n"; a last line without "\n" is kept. */
  function SplitLines(s: string): seq<string>
    decreases |s|
  {
    if s == [] then []
    else
      var i := IndexOfNewline(s);
      if i == |s| then [s] else [s[..i]] + SplitLines(s[i + 1..])
  }

  lemma {:induction false} JoinLinesAppend(a: seq<string>, b: seq<string>)
    ensures JoinLines(a + b) == JoinLines(a) + JoinLines(b)
    decreases |a|
  {
    if a == [] {
      assert a + b == b;
    } else {
      assert (a + b)[0] == a[0] && (a + b)[1..] == a[1..] + b;
      JoinLinesAppend(a[1..], b);
    }
  }

  /** Lines of equal width `w` take `w + 1` characters each. */
  lemma {:induction false} JoinLinesLength(ls: seq<string>, w: nat)
    requires forall i :: 0 <= i < |ls| ==> |ls[i]| == w
    ensures |JoinLines(ls)| == (w + 1) * |ls|
    decreases |ls|
  {
    if ls != [] {
      JoinLinesLength(ls[1..], w);
    }
  }

  /** Splitting undoes joining, as long as no line holds a "\n" of its own. */
  lemma {:induction false} SplitJoin(ls: seq<string>)
    requires forall i :: 0 <= i < |ls| ==> NoNewline(ls[i])
    ensures SplitLines(JoinLines(ls)) == ls
    decreases |ls|
  {
    if ls != [] {
      var s := JoinLines(ls);
      var l := ls[0];
      assert s == l + "\n" + JoinLines(ls[1..]);
      assert s[|l|] == '\n';
      var i := IndexOfNewline(s);
      assert i == |l|;
      assert s[..i] == l;
      assert s[i + 1..] == JoinLines(ls[1..]);
      SplitJoin(ls[1..]);
    }
  }

  /** The blocks of `bs` one after the other. */
  function Flatten<T>(bs: seq<seq<T>>): seq<T> {
    if bs == [] then [] else Flatten(bs[..|bs| - 1]) + bs[|bs| - 1]
  }

  /** Blocks of equal width `w` take `w` elements each. */
  lemma {:induction false} FlattenLength<T>(bs: seq<seq<T>>, w: nat)
    requires forall i :: 0 <= i < |bs| ==> |bs[i]| == w
    ensures |Flatten(bs)| == w * |bs|
    decreases |bs|
  {
    if bs != [] {
      var n := |bs| - 1;
      FlattenLength(bs[..n], w);
      assert w * |bs| == w * n + w;
    }
  }

  /** Block `i` of blocks of equal width `w` sits at offset `w * i`. */
  lemma {:induction false} FlattenBlock<T>(bs: seq<seq<T>>, w: nat, i: nat)
    requires forall j :: 0 <= j < |bs| ==> |bs[j]| == w
    requires i < |bs|
    ensures w * i + w <= |Flatten(bs)|
    ensures Flatten(bs)[w * i..w * i + w] == bs[i]
    decreases |bs|
  {
    var n := |bs| - 1;
    var front := bs[..n];
    var f := Flatten(front);
    FlattenLength(front, w);
    assert Flatten(bs) == f + bs[n];
    if i < n {
      FlattenBlock(front, w, i);
      assert front[i] == bs[i];
      assert w * i + w <= w * n by {
        assert w * n - (w * i + w) == w * (n - i - 1);
      }
      assert (f + bs[n])[w * i..w * i + w] == f[w * i..w * i + w];
    } else {
      assert (f + bs[n])[w * i..w * i + w] == bs[n];
    }
  }

  /** An element of a flattened sequence is an element of one of its blocks. */
  lemma {:induction false} FlattenMember<T>(bs: seq<seq<T>>, x: T)
    requires x in Flatten(bs)
    ensures exists i :: 0 <= i < |bs| && x in bs[i]
    decreases |bs|
  {
    var n := |bs| - 1;
    if x !in bs[n] {
      FlattenMember(bs[..n], x);
      var i :| 0 <= i < n && x in bs[..n][i];
      assert x in bs[i];
    }
  }
}
