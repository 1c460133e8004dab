/** The file queue of qtcat: an ordered map from (timestamp, file number) to a file, kept as the
    sequence of its entries in map order, and the update of the first entry's key in place. */
module FileQueue {
  import opened Codes

  /** `QueueKey` and `QueueEntry`: the entry's file (its index) and the ring its next message is in. */
  datatype Node = Node(tsc: nat, fileNum: nat, file: nat, bufNum: nat)

  /** `QueueKey::operator<`. */
  predicate Less(a: Node, b: Node) {
    a.tsc < b.tsc || (a.tsc == b.tsc && a.fileNum < b.fileNum)
  }

  ghost predicate Ordered(q: seq<Node>) {
    forall i, j :: 0 <= i < j < |q| ==> Less(q[i], q[j])
  }

  ghost predicate Distinct(q: seq<Node>) {
    forall i, j :: 0 <= i < j < |q| ==> q[i].file != q[j].file && q[i].fileNum != q[j].fileNum
  }

  /** What the loop of `catMany` keeps: all entries but the first are in key order, and no entry has
      an earlier timestamp than the first, whose key may be out of order among equal timestamps. */
  ghost predicate HeadFirst(q: seq<Node>) {
    q != [] ==>
      && Ordered(q[1..])
      && forall i :: 0 < i < |q| ==> q[0].tsc <= q[i].tsc
  }

  /** Insertion into an ordered map: before the first greater key. */
  function Insert(q: seq<Node>, n: Node): (r: seq<Node>)
    ensures |r| == |q| + 1
  {
    if q == [] || Less(n, q[0]) then [n] + q else [q[0]] + Insert(q[1..], n)
  }

  lemma {:induction false} InsertHas(q: seq<Node>, n: Node, x: Node)
    ensures x in Insert(q, n) <==> x == n || x in q
    decreases |q|
  {
    if q != [] && !Less(n, q[0]) {
      InsertHas(q[1..], n, x);
    }
  }

  /** Inserting a new key keeps the order. */
  lemma {:induction false} InsertOrdered(q: seq<Node>, n: Node)
    requires Ordered(q) && (forall i :: 0 <= i < |q| ==> q[i].fileNum != n.fileNum)
    ensures Ordered(Insert(q, n))
    decreases |q|
  {
    if q != [] && !Less(n, q[0]) {
      InsertOrdered(q[1..], n);
      var r := Insert(q[1..], n);
      forall i | 0 <= i < |r|
        ensures Less(q[0], r[i])
      {
        InsertHas(q[1..], n, r[i]);
      }
    }
  }

  /** The file of an entry determines the entry's place: used to count files. */
  ghost predicate Holds(q: seq<Node>, file: nat) {
    exists i :: 0 <= i < |q| && q[i].file == file
  }

  lemma {:induction false} InsertDistinct(q: seq<Node>, n: Node)
    requires Distinct(q) && (forall i :: 0 <= i < |q| ==> q[i].fileNum != n.fileNum && q[i].file != n.file)
    ensures Distinct(Insert(q, n))
    decreases |q|
  {
    if q != [] && !Less(n, q[0]) {
      InsertDistinct(q[1..], n);
      var r := Insert(q[1..], n);
      forall i | 0 <= i < |r|
        ensures q[0].file != r[i].file && q[0].fileNum != r[i].fileNum
      {
        InsertHas(q[1..], n, r[i]);
        if r[i] in q[1..] {
          var k :| 0 <= k < |q[1..]| && q[1..][k] == r[i];
          assert q[k + 1] == r[i];
        }
      }
    }
  }

  /** One round of `catMany` after the first entry's message has been printed and its file's next
      message is `(tsc, bufNum)`, or there is none. */
  function Requeue(q: seq<Node>, more: bool, tsc: nat, bufNum: nat): seq<Node>
    requires q != []
  {
    var updated := q[0].(tsc := tsc, bufNum := bufNum);
    if !more then q[1..]
    else if |q| > 1 && q[1].tsc < tsc then Insert(q[1..], updated)
    else [updated] + q[1..]
  }

  /** The loop invariant survives every round, equal timestamps included. */
  lemma {:induction false} RequeueKeeps(q: seq<Node>, more: bool, tsc: nat, bufNum: nat)
    requires q != [] && HeadFirst(q) && Distinct(q)
    ensures HeadFirst(Requeue(q, more, tsc, bufNum)) && Distinct(Requeue(q, more, tsc, bufNum))
  {
    var r, updated := Requeue(q, more, tsc, bufNum), q[0].(tsc := tsc, bufNum := bufNum);
    assert Distinct(q[1..]);
    if !more {
      assert Ordered(r) && Ordered(r[if r == [] then 0 else 1..]);
    } else if |q| > 1 && q[1].tsc < tsc {
      InsertOrdered(q[1..], updated);
      InsertDistinct(q[1..], updated);
      assert Ordered(r[1..]);
    } else {
      assert r[1..] == q[1..];
    }
  }

  lemma {:induction false} RequeueHas(q: seq<Node>, more: bool, tsc: nat, bufNum: nat, x: Node)
    requires q != []
    ensures x in Requeue(q, more, tsc, bufNum) <==> x in q[1..] || (more && x == q[0].(tsc := tsc, bufNum := bufNum))
  {
    InsertHas(q[1..], q[0].(tsc := tsc, bufNum := bufNum), x);
  }
}
