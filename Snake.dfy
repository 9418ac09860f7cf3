/** The snake: an ordered body, head first, and the heading it travels in. */
module Snakes {
  import opened Pieces

  /** Number of segments of a freshly built snake. */
  const InitialLength: nat := 6

  /** The starting body: head at (10,5), five segments trailing to the left along row 5. */
  function InitialBody(): (r: seq<GamePiece>)
  {
    seq(InitialLength, i => GamePiece(10 - i, 5))
  }

  /** Segment `i` is on, or next to, the cell of the segment in front of it. */
  ghost predicate Follows(b: seq<GamePiece>, i: int)
    requires 0 < i < |b|
  {
    Distance(b[i - 1], b[i]) <= 1
  }

  /** Every segment is on, or next to, the cell of the segment in front of it. */
  ghost predicate Connected(b: seq<GamePiece>)
  {
    forall i :: 0 < i < |b| ==> Follows(b, i)
  }

  /** The head shares its cell with some later segment. */
  predicate SelfCollides(b: seq<GamePiece>)
  {
    exists i :: 1 <= i < |b| && b[i] == b[0]
  }

  /** The body after one move in heading `d`: each follower takes the cell its predecessor
      held, and the head advances one cell. */
  function Moved(b: seq<GamePiece>, d: Direction): (m: seq<GamePiece>)
    requires |b| >= 1
  {
    [Step(b[0], d)] + b[..|b| - 1]
  }

  /** The body after growing: a copy of the tail appended. */
  function Grown(b: seq<GamePiece>): (g: seq<GamePiece>)
    requires |b| >= 1
  {
    b + [b[|b| - 1]]
  }

  class Snake {
    var body: seq<GamePiece>
    var heading: Direction

    ghost predicate Valid()
      reads this
    {
      |body| >= InitialLength && Connected(body)
    }

    constructor ()
      ensures Valid()
      ensures body == InitialBody() && heading == Right
    {
      var b := [GamePiece(10, 5)];
      for i := 0 to 5
        invariant |b| == i + 1
        invariant forall k :: 0 <= k < |b| ==> b[k] == GamePiece(10 - k, 5)
      {
        b := b + [GamePiece(b[|b| - 1].x - 1, 5)];
      }
      body := b;
      heading := Right;
      InitialBodySound();
    }

    /** Shifts every follower into its predecessor's cell, tail first, then steps the head. */
    method Move()
      requires Valid()
      modifies this
      ensures Valid()
      ensures heading == old(heading)
      ensures body == Moved(old(body), heading)
    {
      for i := |body| downto 1
        invariant heading == old(heading) && |body| == old(|body|)
        invariant forall k :: 0 <= k < i ==> body[k] == old(body[k])
        invariant forall k :: i <= k < |body| ==> body[k] == old(body[k - 1])
      {
        body := body[i := body[i - 1]];
      }
      body := body[0 := Step(body[0], heading)];
      assert body == Moved(old(body), heading);
      MovedConnected(old(body), heading);
    }

    /** Appends a new segment on the tail's cell. */
    method Grow()
      requires Valid()
      modifies this
      ensures Valid()
      ensures heading == old(heading)
      ensures body == Grown(old(body))
    {
      var tail := body[|body| - 1];
      body := body + [tail];
      GrownConnected(old(body));
    }

    /** Scans the followers for one on the head's cell. */
    method CheckSelfCollision() returns (hit: bool)
      requires Valid()
      ensures hit == SelfCollides(body)
    {
      var head := body[0];
      for i := 1 to |body|
        invariant forall k :: 1 <= k < i ==> body[k] != head
      {
        if head == body[i] {
          return true;
        }
      }
      return false;
    }
  }

  /** The starting body is connected, has no collision, and its neck lies behind a
      right-moving head. */
  lemma InitialBodySound()
    ensures |InitialBody()| == InitialLength
    ensures InitialBody() == [GamePiece(10, 5), GamePiece(9, 5), GamePiece(8, 5),
                              GamePiece(7, 5), GamePiece(6, 5), GamePiece(5, 5)]
    ensures Connected(InitialBody())
    ensures !SelfCollides(InitialBody())
    ensures InitialBody()[1] == Step(InitialBody()[0], Opposite(Right))
  {
  }

  /** A move keeps the length, steps the head one cell in heading `d`, and puts every
      follower on the cell its predecessor held. */
  lemma MovedShifts(b: seq<GamePiece>, d: Direction)
    requires |b| >= 1
    ensures |Moved(b, d)| == |b|
    ensures Moved(b, d)[0] == Step(b[0], d)
    ensures forall i :: 1 <= i < |b| ==> Moved(b, d)[i] == b[i - 1]
  {
  }

  /** Growing adds exactly one segment, on the tail's cell, and keeps every other segment. */
  lemma GrownShape(b: seq<GamePiece>)
    requires |b| >= 1
    ensures |Grown(b)| == |b| + 1
    ensures Grown(b)[..|b|] == b
    ensures Grown(b)[|b|] == b[|b| - 1]
  {
  }

  /** Moving keeps the body connected. */
  lemma MovedConnected(b: seq<GamePiece>, d: Direction)
    requires |b| >= 1 && Connected(b)
    ensures |Moved(b, d)| == |b|
    ensures Connected(Moved(b, d))
  {
    var m := Moved(b, d);
    forall i | 0 < i < |m| ensures Follows(m, i) {
      if i == 1 {
        assert m[0] == Step(b[0], d) && m[1] == b[0];
        assert Distance(b[0], Step(b[0], d)) == 1;
      } else {
        assert m[i - 1] == b[i - 2] && m[i] == b[i - 1];
        assert Follows(b, i - 1);
      }
    }
  }

  /** After a move, the segment behind the head sits one step back against the heading. */
  lemma MovedNeck(b: seq<GamePiece>, d: Direction)
    requires |b| >= 2
    ensures Moved(b, d)[1] == Step(Moved(b, d)[0], Opposite(d))
    ensures Moved(b, d)[1] == b[0]
  {
  }

  /** After a move, every occupied cell is either the new head's or one the body held before. */
  lemma MovedCells(b: seq<GamePiece>, d: Direction, c: GamePiece)
    requires |b| >= 1
    ensures c in Moved(b, d) ==> c == Step(b[0], d) || c in b[..|b| - 1]
  {
  }

  /** Growing keeps the body connected. */
  lemma GrownConnected(b: seq<GamePiece>)
    requires |b| >= 1 && Connected(b)
    ensures Connected(Grown(b))
  {
    var g := Grown(b);
    forall i | 0 < i < |g| ensures Follows(g, i) {
      if i < |b| {
        assert g[i - 1] == b[i - 1] && g[i] == b[i];
        assert Follows(b, i);
      } else {
        assert g[i - 1] == g[i];
      }
    }
  }

  /** Growing a body of two or more segments creates no collision of its own: the copy
      sits on the tail, and the head is on the tail only if it already collided. */
  lemma GrownCollides(b: seq<GamePiece>)
    requires |b| >= 2
    ensures SelfCollides(Grown(b)) <==> SelfCollides(b)
  {
    var g := Grown(b);
    if SelfCollides(g) {
      var i :| 1 <= i < |g| && g[i] == g[0];
      if i == |b| {
        assert b[|b| - 1] == b[0];
      } else {
        assert b[i] == b[0];
      }
    }
    if SelfCollides(b) {
      var i :| 1 <= i < |b| && b[i] == b[0];
      assert g[i] == g[0];
    }
  }

  /** A head that moves onto the neck's cell (the reverse of the last move) always lands on a
      follower, provided there are at least three segments. */
  lemma ReversalCollides(b: seq<GamePiece>, d: Direction)
    requires |b| >= 3
    requires Step(b[0], d) == b[1]
    ensures SelfCollides(Moved(b, d))
  {
    var m := Moved(b, d);
    assert m[2] == b[1] == m[0];
  }
}
