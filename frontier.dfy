/** The frontier of `bbsolve`: a list of `(key, stamp, node)` entries used as a
    min-heap, where the stamp is the value drawn from the global counter. */
module Frontier {
  import opened BBTree

  datatype Entry = Entry(key: real, stamp: nat, node: Node)

  /** Tuple order on `(key, stamp)`; nodes are never compared because stamps differ. */
  predicate Before(a: Entry, b: Entry) {
    a.key < b.key || (a.key == b.key && a.stamp < b.stamp)
  }

  /** Position of an entry that no other entry precedes: what `heappop` removes. */
  function MinIndex(h: seq<Entry>): (i: nat)
    requires |h| > 0
    ensures i < |h|
    ensures forall j :: 0 <= j < |h| ==> !Before(h[j], h[i])
    decreases |h|
  {
    if |h| == 1 then 0
    else
      var k := MinIndex(h[..|h| - 1]);
      assert forall j :: 0 <= j < |h| - 1 ==> h[..|h| - 1][j] == h[j];
      if Before(h[|h| - 1], h[k]) then |h| - 1 else k
  }

  /** The frontier without the entry at position `i`. */
  function Remove(h: seq<Entry>, i: nat): (r: seq<Entry>)
    requires i < |h|
    ensures |r| == |h| - 1
    ensures forall j :: 0 <= j < |r| ==> r[j] == if j < i then h[j] else h[j + 1]
    ensures multiset(r) + multiset{h[i]} == multiset(h)
  {
    assert h == h[..i] + [h[i]] + h[i + 1..];
    h[..i] + h[i + 1..]
  }

  /** Every stamp in the frontier was issued before `next`, and no two are equal. */
  predicate Stamped(h: seq<Entry>, next: nat) {
    && (forall i :: 0 <= i < |h| ==> h[i].stamp < next)
    && (forall i, j :: 0 <= i < j < |h| ==> h[i].stamp != h[j].stamp)
  }

  /** Removing an entry keeps the stamps distinct and below `next`. */
  lemma RemoveKeepsStamped(h: seq<Entry>, i: nat, next: nat)
    requires i < |h| && Stamped(h, next)
    ensures Stamped(Remove(h, i), next)
  {
    var r := Remove(h, i);
    forall a, b | 0 <= a < b < |r| ensures r[a].stamp != r[b].stamp {
      var a' := if a < i then a else a + 1;
      var b' := if b < i then b else b + 1;
      assert r[a] == h[a'] && r[b] == h[b'] && a' < b';
    }
  }

  /** Appending entries stamped with consecutive fresh counter values, and
      advancing the counter past them, keeps the stamps distinct and below it. */
  lemma PushFreshKeepsStamped(r: seq<Entry>, h: seq<Entry>, next: nat, next': nat)
    requires Stamped(r, next)
    requires |r| <= |h| && h[..|r|] == r && next' == next + (|h| - |r|)
    requires forall j :: |r| <= j < |h| ==> h[j].stamp == next + (j - |r|)
    ensures Stamped(h, next')
  {
    forall j | 0 <= j < |r| ensures h[j] == r[j] {
      assert h[..|r|][j] == h[j];
    }
  }

  /** With distinct stamps the removed entry precedes every other one: it is the
      unique lexicographic minimum of `(key, stamp)`. */
  lemma MinIsStrict(h: seq<Entry>, next: nat)
    requires |h| > 0 && Stamped(h, next)
    ensures forall j :: 0 <= j < |h| && j != MinIndex(h) ==> Before(h[MinIndex(h)], h[j])
  {
    var i := MinIndex(h);
    forall j | 0 <= j < |h| && j != i ensures Before(h[i], h[j]) {
      if j < i {
        assert h[j].stamp != h[i].stamp;
      } else {
        assert h[i].stamp != h[j].stamp;
      }
    }
  }
}
