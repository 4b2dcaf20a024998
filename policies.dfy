/** The two greedy movement rules, stated over a distance field: humans
    flee to an empty eight-neighbour of largest distance from the zombies,
    zombies pursue to an empty four-neighbour of smallest distance from the
    humans, and either stays put unless the move strictly improves. */
module Policies {
  import opened Grid

  /** The field has the board's shape. */
  predicate Fits(field: array2<int>, b: Board) {
    field.Length0 == b.height && field.Length1 == b.width
  }

  predicate InField(field: array2<int>, c: Cell) {
    0 <= c.0 < field.Length0 && 0 <= c.1 < field.Length1
  }

  function At(field: array2<int>, c: Cell): int
    reads field
    requires InField(field, c)
  {
    field[c.0, c.1]
  }

  /** The largest field value at the listed cells. */
  function MaxOver(field: array2<int>, cs: seq<Cell>): (r: int)
    reads field
    requires |cs| > 0 && forall x :: x in cs ==> InField(field, x)
    ensures forall x :: x in cs ==> At(field, x) <= r
    ensures exists x :: x in cs && At(field, x) == r
  {
    if |cs| == 1 then At(field, cs[0])
    else
      var rest := MaxOver(field, cs[1..]);
      if At(field, cs[0]) >= rest then At(field, cs[0]) else rest
  }

  /** The smallest field value at the listed cells. */
  function MinOver(field: array2<int>, cs: seq<Cell>): (r: int)
    reads field
    requires |cs| > 0 && forall x :: x in cs ==> InField(field, x)
    ensures forall x :: x in cs ==> r <= At(field, x)
    ensures exists x :: x in cs && At(field, x) == r
  {
    if |cs| == 1 then At(field, cs[0])
    else
      var rest := MinOver(field, cs[1..]);
      if At(field, cs[0]) <= rest then At(field, cs[0]) else rest
  }

  /** The listed cells whose field value is `d`, in order. */
  function Ties(field: array2<int>, cs: seq<Cell>, d: int): (r: seq<Cell>)
    reads field
    requires forall x :: x in cs ==> InField(field, x)
    ensures forall x :: x in r <==> x in cs && At(field, x) == d
  {
    if |cs| == 0 then []
    else (if At(field, cs[0]) == d then [cs[0]] else []) + Ties(field, cs[1..], d)
  }

  ghost predicate HasOpen8(b: Board, c: Cell) {
    exists n :: Open8(b, c, n)
  }

  /** A human at `from` may end at `to`: it stays if no empty eight-neighbour
      is farther from the zombies than its own cell; otherwise it moves to an
      empty eight-neighbour whose distance is the largest among them. */
  ghost predicate FleeMove(b: Board, field: array2<int>, from: Cell, to: Cell)
    reads field
    requires Fits(field, b) && InBounds(from, b.height, b.width)
  {
    if forall n :: Open8(b, from, n) ==> At(field, n) <= At(field, from) then
      to == from
    else
      Open8(b, from, to) && At(field, from) < At(field, to)
      && forall n :: Open8(b, from, n) ==> At(field, n) <= At(field, to)
  }

  /** A zombie at `from` may end at `to`: it stays if it has no empty
      four-neighbour or none is nearer the humans than its own cell; otherwise
      it moves to an empty four-neighbour whose distance is the smallest among them. */
  ghost predicate PursueMove(b: Board, field: array2<int>, from: Cell, to: Cell)
    reads field
    requires Fits(field, b) && InBounds(from, b.height, b.width)
  {
    if forall n :: Open4(b, from, n) ==> At(field, from) <= At(field, n) then
      to == from
    else
      Open4(b, from, to) && At(field, to) < At(field, from)
      && forall n :: Open4(b, from, n) ==> At(field, to) <= At(field, n)
  }
}
