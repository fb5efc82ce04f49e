/** Facts about lists that one pass of the chainer takes apart and hands
    back in order; they hold for elements of any type. */
module SeqFacts {

  /** `passed` extends `checked` with candidates taken from before the
      closing one, and `unscanned` is the tail of `rem` after it. */
  predicate ClosedInOrder<T(==)>(rem: seq<T>, checked: seq<T>, passed: seq<T>, unscanned: seq<T>) {
    && checked <= passed
    && |unscanned| < |rem|
    && unscanned == rem[|rem| - |unscanned|..]
    && multiset(passed) <= multiset(checked + rem[..|rem| - |unscanned| - 1])
  }

  lemma {:induction false} TailSuffix<T>(rem: seq<T>, u: nat)
    requires u < |rem|
    ensures rem[1..][|rem| - 1 - u..] == rem[|rem| - u..]
  {
  }

  lemma {:induction false} HeadPrefix<T>(rem: seq<T>, j: nat)
    requires j < |rem|
    ensures rem[..j + 1] == [rem[0]] + rem[1..][..j]
  {
  }

  lemma {:induction false} ConcatAssoc<T>(a: seq<T>, b: seq<T>, c: seq<T>)
    ensures (a + b) + c == a + (b + c)
  {
  }

  lemma {:induction false} PrefixOfExtension<T>(a: seq<T>, x: T, c: seq<T>)
    requires a + [x] <= c
    ensures a <= c
  {
    assert a == (a + [x])[..|a|];
  }

  lemma {:induction false} ClosedInOrderAfterReject<T>(rem: seq<T>, checked: seq<T>, passed: seq<T>, unscanned: seq<T>)
    requires |rem| > 0 && ClosedInOrder(rem[1..], checked + [rem[0]], passed, unscanned)
    ensures ClosedInOrder(rem, checked, passed, unscanned)
  {
    var u := |unscanned|;
    var j := |rem| - 1 - u - 1;
    TailSuffix(rem, u);
    HeadPrefix(rem, j);
    PrefixOfExtension(checked, rem[0], passed);
    ConcatAssoc(checked, [rem[0]], rem[1..][..j]);
    assert j + 1 == |rem| - u - 1;
    ClosedInOrderIntro(rem, checked, passed, unscanned);
  }

  lemma {:induction false} ClosedInOrderAfterGrow<T>(rem: seq<T>, checked: seq<T>, passed: seq<T>, unscanned: seq<T>)
    requires |rem| > 0 && ClosedInOrder(rem[1..], checked, passed, unscanned)
    ensures ClosedInOrder(rem, checked, passed, unscanned)
  {
    var u := |unscanned|;
    var tail := rem[1..];
    var j := |tail| - u - 1;
    TailSuffix(rem, u);
    assert multiset(passed) <= multiset(checked + tail[..j]);
    SkippedHeadStaysBelow(rem, checked, passed, j);
    assert j + 1 == |rem| - u - 1;
    ClosedInOrderIntro(rem, checked, passed, unscanned);
  }

  lemma {:induction false} ClosedInOrderIntro<T>(rem: seq<T>, checked: seq<T>, passed: seq<T>, unscanned: seq<T>)
    requires checked <= passed
    requires |unscanned| < |rem|
    requires unscanned == rem[|rem| - |unscanned|..]
    requires multiset(passed) <= multiset(checked + rem[..|rem| - |unscanned| - 1])
    ensures ClosedInOrder(rem, checked, passed, unscanned)
  {
  }

  lemma {:induction false} SkippedHeadStaysBelow<T>(rem: seq<T>, checked: seq<T>, passed: seq<T>, j: nat)
    requires j < |rem| && multiset(passed) <= multiset(checked + rem[1..][..j])
    ensures multiset(passed) <= multiset(checked + rem[..j + 1])
  {
    var before := rem[1..][..j];
    HeadPrefix(rem, j);
    calc {
      multiset(checked + rem[..j + 1]);
      multiset(checked) + multiset([rem[0]] + before);
      multiset(checked) + multiset(before) + multiset{rem[0]};
      multiset(checked + before) + multiset{rem[0]};
    }
  }
}
