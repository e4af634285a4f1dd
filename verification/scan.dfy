/**
 The in-order scan behind a `for` loop that returns at the first element
 satisfying a condition.
 */
module Scan {

  datatype Option<T> = None | Some(value: T)

  /** The index of the first element of `s` at or after `from` that
      satisfies `p`, or `None` when there is none. */
  function FirstFrom<T>(s: seq<T>, p: T -> bool, from: nat): (r: Option<nat>)
    requires from <= |s|
    ensures r.Some? ==> from <= r.value < |s| && p(s[r.value])
    ensures r.Some? ==> forall j :: from <= j < r.value ==> !p(s[j])
    ensures r.None? <==> forall j :: from <= j < |s| ==> !p(s[j])
    decreases |s| - from
  {
    if from == |s| then None
    else if p(s[from]) then Some(from)
    else FirstFrom(s, p, from + 1)
  }

  /** The first satisfying element is unique: whatever index has the shape of
      a first match is the one the scan returns. */
  lemma FirstFromUnique<T>(s: seq<T>, p: T -> bool, k: nat)
    requires k < |s| && p(s[k])
    requires forall j :: 0 <= j < k ==> !p(s[j])
    ensures FirstFrom(s, p, 0) == Some(k)
  {
    var m := FirstFrom(s, p, 0);
    assert m.Some?;
    assert !(k < m.value);
  }

  /** Elements appended after a satisfying one are never reached. */
  lemma FirstFromAppend<T>(s: seq<T>, t: seq<T>, p: T -> bool)
    requires FirstFrom(s, p, 0).Some?
    ensures FirstFrom(s + t, p, 0) == FirstFrom(s, p, 0)
  {
    var k := FirstFrom(s, p, 0).value;
    assert forall j :: 0 <= j <= k ==> (s + t)[j] == s[j];
    FirstFromUnique(s + t, p, k);
  }

  /** Where each element of `s` lands once `x` is inserted at `at`. */
  lemma InsertShifts<T>(s: seq<T>, at: nat, x: T, s': seq<T>)
    requires at <= |s|
    requires s' == s[..at] + [x] + s[at..]
    ensures |s'| == |s| + 1 && s'[at] == x
    ensures forall j :: 0 <= j < at ==> s'[j] == s[j]
    ensures forall j :: at < j < |s'| ==> s'[j] == s[j - 1]
  {
  }

  /** Inserting an element that does not satisfy `p` only shifts the index
      found past the insertion point. */
  lemma FirstFromInsert<T>(s: seq<T>, at: nat, x: T, p: T -> bool, s': seq<T>)
    requires at <= |s| && !p(x)
    requires s' == s[..at] + [x] + s[at..]
    ensures FirstFrom(s, p, 0).None? ==> FirstFrom(s', p, 0).None?
    ensures FirstFrom(s, p, 0).Some? ==>
      var k := FirstFrom(s, p, 0).value;
      FirstFrom(s', p, 0) == Some(if k < at then k else k + 1)
  {
    InsertShifts(s, at, x, s');
    var m := FirstFrom(s, p, 0);
    if m.None? {
      assert forall j :: 0 <= j < |s'| ==> !p(s'[j]) by {
        forall j | 0 <= j < |s'| ensures !p(s'[j]) {
          if j > at { assert s'[j] == s[j - 1]; }
        }
      }
    } else {
      var k := m.value;
      var k' := if k < at then k else k + 1;
      forall j | 0 <= j < k' ensures !p(s'[j]) {
        if j > at { assert s'[j] == s[j - 1]; }
      }
      FirstFromUnique(s', p, k');
    }
  }

  /** Two scans agree when the condition holds at the same positions of both
      sequences. */
  lemma FirstFromAgree<T, U>(s: seq<T>, p: T -> bool, t: seq<U>, q: U -> bool, from: nat)
    requires |s| == |t| && from <= |s|
    requires forall j :: from <= j < |s| ==> p(s[j]) == q(t[j])
    ensures FirstFrom(s, p, from) == FirstFrom(t, q, from)
  {
  }
}
