/**
 Keeping the elements of one kind out of a heterogeneous sequence, in order:
 the shape shared by the three nested loops of the traversal.
 */
module Filter {
  import opened Wrappers

  /** The payloads `pick` accepts, in the order of `es`. */
  function Pick<E, D>(es: seq<E>, pick: E -> Option<D>): (r: seq<D>)
    ensures |r| <= |es|
  {
    if es == [] then []
    else
      Taken(es[0], pick) + Pick(es[1..], pick)
  }

  /** The payload of one element, if `pick` accepts it. */
  function Taken<E, D>(e: E, pick: E -> Option<D>): (r: seq<D>)
    ensures |r| <= 1
  {
    match pick(e)
    case Some(d) => [d]
    case None => []
  }

  /** Picking distributes over concatenation. */
  lemma {:induction false} PickAppend<E, D>(a: seq<E>, b: seq<E>, pick: E -> Option<D>)
    ensures Pick(a + b, pick) == Pick(a, pick) + Pick(b, pick)
  {
    if a == [] {
      assert a + b == b;
    } else {
      assert (a + b)[1..] == a[1..] + b;
      PickAppend(a[1..], b, pick);
    }
  }

  /** Helper: regrouping a three-way concatenation, stated once for any element type. */
  lemma ConcatAssoc<T>(a: seq<T>, b: seq<T>, c: seq<T>)
    ensures a + b + c == a + (b + c)
  {
  }

  /** Helper: a sequence is what precedes position `i`, the element at `i`, and what follows. */
  lemma SplitAround<T>(s: seq<T>, i: int)
    requires 0 <= i < |s|
    ensures s == s[..i] + [s[i]] + s[i + 1..]
  {
  }

  /** `idx` lists, in increasing order, exactly the positions of `es` that `pick` accepts, and `r` their payloads. */
  ghost predicate Selects<E, D>(es: seq<E>, pick: E -> Option<D>, r: seq<D>, idx: seq<int>)
  {
    && |idx| == |r|
    && (forall k :: 0 <= k < |idx| ==> 0 <= idx[k] < |es| && pick(es[idx[k]]) == Some(r[k]))
    && (forall k, l :: 0 <= k < l < |idx| ==> idx[k] < idx[l])
    && (forall i :: 0 <= i < |es| && pick(es[i]).Some? ==> i in idx)
  }

  /** `Pick` keeps every accepted element, nothing else, in declaration order. */
  lemma {:induction false} PickSelects<E, D>(es: seq<E>, pick: E -> Option<D>) returns (idx: seq<int>)
    ensures Selects(es, pick, Pick(es, pick), idx)
  {
    if es == [] {
      idx := [];
    } else {
      var rest := PickSelects(es[1..], pick);
      var head: seq<int> := if pick(es[0]).Some? then [0] else [];
      idx := head + Shift(rest);
      SelectsCons(es, pick, rest, head, idx);
    }
  }

  /** Every entry of `idx` moved one position on. */
  function Shift(idx: seq<int>): (r: seq<int>)
    ensures |r| == |idx|
    ensures forall k :: 0 <= k < |r| ==> r[k] == idx[k] + 1
  {
    seq(|idx|, k requires 0 <= k < |idx| => idx[k] + 1)
  }

  /** The inductive step of `PickSelects`: prepend the head of `es`. */
  lemma SelectsCons<E, D>(es: seq<E>, pick: E -> Option<D>, rest: seq<int>, head: seq<int>, idx: seq<int>)
    requires es != []
    requires Selects(es[1..], pick, Pick(es[1..], pick), rest)
    requires head == if pick(es[0]).Some? then [0] else []
    requires idx == head + Shift(rest)
    ensures Selects(es, pick, Pick(es, pick), idx)
  {
    SelectsConsPayloads(es, pick, rest, head, idx);
    SelectsConsOrdered(rest, head, idx);
    SelectsConsComplete(es, pick, rest, head, idx);
  }

  lemma SelectsConsPayloads<E, D>(es: seq<E>, pick: E -> Option<D>, rest: seq<int>, head: seq<int>, idx: seq<int>)
    requires es != []
    requires |rest| == |Pick(es[1..], pick)|
    requires forall k :: 0 <= k < |rest| ==> 0 <= rest[k] < |es[1..]| && pick(es[1..][rest[k]]) == Some(Pick(es[1..], pick)[k])
    requires head == if pick(es[0]).Some? then [0] else []
    requires idx == head + Shift(rest)
    ensures |idx| == |Pick(es, pick)|
    ensures forall k :: 0 <= k < |idx| ==> 0 <= idx[k] < |es| && pick(es[idx[k]]) == Some(Pick(es, pick)[k])
  {
    var tail := Pick(es[1..], pick);
    var first := Taken(es[0], pick);
    assert Pick(es, pick) == first + tail;
    forall k | 0 <= k < |idx|
      ensures 0 <= idx[k] < |es| && pick(es[idx[k]]) == Some((first + tail)[k])
    {
      if k >= |head| {
        PayloadShifted(es, pick, rest, head, idx, tail, first, k);
      } else {
        assert idx[k] == 0;
        assert (first + tail)[k] == first[0];
      }
    }
  }

  /** One position of `SelectsConsPayloads` past the head: it comes from the tail, one place on. */
  lemma PayloadShifted<E, D>(es: seq<E>, pick: E -> Option<D>, rest: seq<int>, head: seq<int>, idx: seq<int>,
                             tail: seq<D>, first: seq<D>, k: int)
    requires es != [] && tail == Pick(es[1..], pick) && |first| == |head|
    requires idx == head + Shift(rest)
    requires |head| <= k < |idx| && |rest| == |tail|
    requires 0 <= rest[k - |head|] < |es[1..]| && pick(es[1..][rest[k - |head|]]) == Some(tail[k - |head|])
    ensures 0 <= idx[k] < |es| && pick(es[idx[k]]) == Some((first + tail)[k])
  {
    var j := k - |head|;
    assert idx[k] == rest[j] + 1;
    assert es[idx[k]] == es[1..][rest[j]];
  }

  lemma SelectsConsOrdered(rest: seq<int>, head: seq<int>, idx: seq<int>)
    requires forall k, l :: 0 <= k < l < |rest| ==> rest[k] < rest[l]
    requires forall k :: 0 <= k < |rest| ==> 0 <= rest[k]
    requires head == [] || head == [0]
    requires idx == head + Shift(rest)
    ensures forall k, l :: 0 <= k < l < |idx| ==> idx[k] < idx[l]
  {
    var h := |head|;
    forall k, l | 0 <= k < l < |idx|
      ensures idx[k] < idx[l]
    {
      if k >= h {
        assert idx[k] == rest[k - h] + 1 && idx[l] == rest[l - h] + 1;
      } else {
        assert idx[l] == rest[l - h] + 1;
      }
    }
  }

  lemma SelectsConsComplete<E, D>(es: seq<E>, pick: E -> Option<D>, rest: seq<int>, head: seq<int>, idx: seq<int>)
    requires es != []
    requires forall i :: 0 <= i < |es[1..]| && pick(es[1..][i]).Some? ==> i in rest
    requires head == if pick(es[0]).Some? then [0] else []
    requires idx == head + Shift(rest)
    ensures forall i :: 0 <= i < |es| && pick(es[i]).Some? ==> i in idx
  {
    var h := |head|;
    forall i | 0 <= i < |es| && pick(es[i]).Some?
      ensures i in idx
    {
      if i == 0 {
        assert idx[0] == 0;
      } else {
        assert es[1..][i - 1] == es[i];
        assert i - 1 in rest;
        var k :| 0 <= k < |rest| && rest[k] == i - 1;
        assert idx[k + h] == i;
      }
    }
  }
}
