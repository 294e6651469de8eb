/** The upcoming-piece queue (BitLogicNextPiece): a FIFO of piece names kept
    at `max_piece_queue` entries. `random.choice` is replaced by `draw`, the
    sequence of choices the random source makes. */
module PieceQueue {
  import opened PyRuntime
  import opened Shapes

  datatype Queue = Queue(max: int, items: seq<string>)

  /** Every entry is one of the seven table keys. */
  predicate AllNames(items: seq<string>)
  {
    forall i :: 0 <= i < |items| ==> KindOf(items[i]).Some?
  }

  /** `insert_piece` when the random choice is `k`: append, then drop the
      front if the queue is now longer than its maximum. */
  function InsertPiece(q: Queue, k: PieceKind): (r: Queue)
    ensures r.max == q.max
    ensures |q.items| + 1 <= q.max ==> r.items == q.items + [Name(k)]
    ensures |q.items| + 1 > q.max ==> r.items == if |q.items| == 0 then [] else q.items[1..] + [Name(k)]
    ensures AllNames(q.items) ==> AllNames(r.items)
  {
    KindOfName(k);
    var grown := q.items + [Name(k)];
    if |grown| > q.max then q.(items := grown[1..]) else q.(items := grown)
  }

  /** The names of the first `count` draws. */
  function Drawn(draw: nat -> PieceKind, count: nat): (r: seq<string>)
    ensures |r| == count
    ensures forall i :: 0 <= i < count ==> r[i] == Name(draw(i))
  {
    seq(count, i requires 0 <= i < count => Name(draw(i)))
  }

  /** `count` calls of `insert_piece`, the i-th drawing `draw(i)`. */
  function InsertMany(q: Queue, draw: nat -> PieceKind, count: nat): (r: Queue)
    ensures r.max == q.max
  {
    if count == 0 then q
    else InsertPiece(InsertMany(q, draw, count - 1), draw(count - 1))
  }

  /** Below the maximum, inserting `count` pieces appends exactly them. */
  lemma {:induction false} InsertManyAppends(q: Queue, draw: nat -> PieceKind, count: nat)
    requires count == 0 || |q.items| + count <= q.max
    ensures InsertMany(q, draw, count).items == q.items + Drawn(draw, count)
  {
    if count > 0 {
      InsertManyAppends(q, draw, count - 1);
      assert Drawn(draw, count) == Drawn(draw, count - 1) + [Name(draw(count - 1))];
    }
  }

  /** Every draw names a table key. */
  lemma DrawnNames(draw: nat -> PieceKind, count: nat)
    ensures AllNames(Drawn(draw, count))
  {
    forall i | 0 <= i < count
      ensures KindOf(Drawn(draw, count)[i]).Some?
    {
      KindOfName(draw(i));
    }
  }

  lemma AppendNames(a: seq<string>, b: seq<string>)
    requires AllNames(a) && AllNames(b)
    ensures AllNames(a + b)
  {
    assert forall i :: 0 <= i < |a + b| ==> (a + b)[i] == if i < |a| then a[i] else b[i - |a|];
  }

  /** `BitLogicNextPiece(max_piece_queue)`: max_piece_queue draws in order;
      a non-positive maximum leaves the queue empty. */
  function NewQueue(max: int, draw: nat -> PieceKind): (r: Queue)
    ensures r.max == max
    ensures r.items == Drawn(draw, if max < 0 then 0 else max)
    ensures AllNames(r.items)
  {
    var n := if max < 0 then 0 else max;
    InsertManyAppends(Queue(max, []), draw, n);
    DrawnNames(draw, n);
    InsertMany(Queue(max, []), draw, n)
  }

  /** `get_piece`: pop the front; popping an empty list raises IndexError. */
  function GetPiece(q: Queue): (r: Result<(string, Queue)>)
    ensures r.Err? <==> |q.items| == 0
    ensures r.Err? ==> r.fault == IndexError
    ensures r.Ok? ==> [r.value.0] + r.value.1.items == q.items && r.value.1.max == q.max
  {
    if |q.items| == 0 then Err(IndexError)
    else Ok((q.items[0], q.(items := q.items[1..])))
  }

  /** `update`: insert pieces while the queue is shorter than its maximum. */
  function Update(q: Queue, draw: nat -> PieceKind): (r: Queue)
    ensures r.max == q.max
    ensures |q.items| >= q.max ==> r == q
    ensures |q.items| < q.max ==> r.items == q.items + Drawn(draw, q.max - |q.items|)
    ensures AllNames(q.items) ==> AllNames(r.items)
  {
    if |q.items| >= q.max then q
    else
      var n := q.max - |q.items|;
      InsertManyAppends(q, draw, n);
      DrawnNames(draw, n);
      if AllNames(q.items) then AppendNames(q.items, Drawn(draw, n)); InsertMany(q, draw, n)
      else InsertMany(q, draw, n)
  }

  /** `peek_next(n)`: the queue's `[:n]` slice; the queue is not touched. */
  function PeekNext(q: Queue, n: int): (r: seq<string>)
    ensures r <= q.items
    ensures 0 <= n ==> |r| == if n < |q.items| then n else |q.items|
  {
    SliceTo(q.items, n)
  }

  /** A pop followed by a refill gives back a full queue holding the old
      tail, in order, then one fresh draw. */
  lemma PopThenRefill(q: Queue, draw: nat -> PieceKind)
    requires |q.items| == q.max > 0
    ensures GetPiece(q).Ok?
    ensures var rest := GetPiece(q).value.1;
      Update(rest, draw).items == q.items[1..] + [Name(draw(0))]
  {
    var rest := GetPiece(q).value.1;
    assert |rest.items| + 1 == q.max;
    InsertManyAppends(rest, draw, 1);
  }
}
