/** Headings of the ant and the turn primitives of langtonsant.go.

    The Go program encodes a heading as an int (the iota constants up = 0,
    rt = 1, dn = 2, lt = 3) and a turn rule as a func(int) int.  Here a
    heading is an enumeration and a turn rule is a tag dispatched by Apply. */
module Headings {

  datatype Heading = Up | Rt | Dn | Lt

  /** The integer constant the Go program uses for each heading. */
  function Ordinal(d: Heading): (n: nat)
    ensures n < 4
  {
    match d
    case Up => 0
    case Rt => 1
    case Dn => 2
    case Lt => 3
  }

  /** A quarter turn clockwise: the ordinal goes up by one, modulo 4. */
  function TurnRight(d: Heading): (r: Heading)
    ensures Ordinal(r) == (Ordinal(d) + 1) % 4
  {
    match d
    case Up => Rt
    case Rt => Dn
    case Dn => Lt
    case Lt => Up
  }

  /** A quarter turn counter-clockwise, which undoes a right turn. */
  function TurnLeft(d: Heading): (r: Heading)
    ensures Ordinal(r) == (Ordinal(d) + 3) % 4
    ensures TurnRight(r) == d
  {
    match d
    case Up => Lt
    case Rt => Up
    case Dn => Rt
    case Lt => Dn
  }

  /** A half turn: the ordinal goes up by two, modulo 4. */
  function TurnBack(d: Heading): (r: Heading)
    ensures Ordinal(r) == (Ordinal(d) + 2) % 4
    ensures r != d
  {
    match d
    case Up => Dn
    case Rt => Lt
    case Dn => Up
    case Lt => Rt
  }

  /** No turn at all: the heading is returned as it is. */
  function TurnNone(d: Heading): (r: Heading)
    ensures r == d
  {
    d
  }

  /** The four turn rules a colour can be bound to. */
  datatype Turn = Right | Left | Back | NoTurn

  /** How many clockwise quarter turns a rule makes. */
  function Quarters(t: Turn): (n: nat)
    ensures n < 4
  {
    match t
    case Right => 1
    case Left => 3
    case Back => 2
    case NoTurn => 0
  }

  /** Calls the turn function a rule stands for. Every rule rotates the
      heading by its fixed number of quarter turns. */
  function Apply(t: Turn, d: Heading): (r: Heading)
    ensures Ordinal(r) == (Ordinal(d) + Quarters(t)) % 4
  {
    match t
    case Right => TurnRight(d)
    case Left => TurnLeft(d)
    case Back => TurnBack(d)
    case NoTurn => TurnNone(d)
  }

  /** Headings are told apart by their ordinals. */
  lemma OrdinalInjective(d: Heading, e: Heading)
    requires Ordinal(d) == Ordinal(e)
    ensures d == e
  {
  }

  /** Left and right turns undo each other, in either order. */
  lemma LeftRightInverse(d: Heading)
    ensures TurnLeft(TurnRight(d)) == d
    ensures TurnRight(TurnLeft(d)) == d
  {
    OrdinalInjective(TurnLeft(TurnRight(d)), d);
  }

  /** Four right turns are the identity, two are not. */
  lemma RightFourTimes(d: Heading)
    ensures TurnRight(TurnRight(TurnRight(TurnRight(d)))) == d
    ensures TurnRight(TurnRight(d)) != d
  {
    OrdinalInjective(TurnRight(TurnRight(TurnRight(TurnRight(d)))), d);
  }

  /** A half turn is two right turns, and is its own inverse. */
  lemma BackIsTwoRights(d: Heading)
    ensures TurnBack(d) == TurnRight(TurnRight(d))
    ensures TurnBack(TurnBack(d)) == d
  {
    OrdinalInjective(TurnBack(d), TurnRight(TurnRight(d)));
    OrdinalInjective(TurnBack(TurnBack(d)), d);
  }

  /** The no-turn rule leaves every heading as it is. */
  lemma NoneIsIdentity(d: Heading)
    ensures Apply(NoTurn, d) == d
  {
  }

  /** Every turn rule is a bijection on headings: it maps distinct headings
      to distinct headings. */
  lemma ApplyInjective(t: Turn, d: Heading, e: Heading)
    requires Apply(t, d) == Apply(t, e)
    ensures d == e
  {
    match t
    case Right => LeftRightInverse(d); LeftRightInverse(e);
    case Left => LeftRightInverse(d); LeftRightInverse(e);
    case Back => BackIsTwoRights(d); BackIsTwoRights(e);
    case NoTurn =>
  }
}
