/**
 * The payloads of the airport network: airports (vertex elements) and routes
 * (edge elements).
 */
module Domain {
  import opened JavaText

  /** Java `int`. */
  type Int32 = x: int | -0x8000_0000 <= x < 0x8000_0000

  const MAX_INT: Int32 := 0x7fff_ffff

  /**
   * An airport.  It overrides neither `equals` nor `hashCode`, so two airports are
   * equal only when they are the same object: a class, compared by reference.
   * Its fields are never reassigned after construction.
   */
  class Airport {
    const name: string
    const abbreviation: string
    const x: Int32
    const y: Int32

    /** The screen-position constructor. */
    constructor (name: string, abbreviation: string, x: Int32, y: Int32)
      ensures this.name == name && this.abbreviation == abbreviation
      ensures this.x == x && this.y == y
    {
      this.name := name;
      this.abbreviation := abbreviation;
      this.x := x;
      this.y := y;
    }

    /** The geographic constructor: the position defaults to the origin. */
    constructor Geographic(name: string, abbreviation: string)
      ensures this.name == name && this.abbreviation == abbreviation
      ensures x == 0 && y == 0
    {
      this.name := name;
      this.abbreviation := abbreviation;
      x := 0;
      y := 0;
    }

    /** The geographic constructor that also places the airport on screen. */
    constructor GeographicAt(name: string, abbreviation: string, x: Int32, y: Int32)
      ensures this.name == name && this.abbreviation == abbreviation
      ensures this.x == x && this.y == y
    {
      this.name := name;
      this.abbreviation := abbreviation;
      this.x := x;
      this.y := y;
    }

    /** Orders airports by abbreviation, as `String.compareTo` does. */
    function CompareTo(o: Airport): (r: int)
      ensures r == 0 <==> abbreviation == o.abbreviation
      ensures r == -CompareStrings(o.abbreviation, abbreviation)
    {
      CompareZeroIffEqual(abbreviation, o.abbreviation);
      CompareAntisymmetric(abbreviation, o.abbreviation);
      CompareStrings(abbreviation, o.abbreviation)
    }
  }

  /**
   * A route between two airports.  Its fields are set once by the constructor, so it
   * is a value; the ends are nullable because the min/max folds of the network start
   * from placeholder routes with no ends.
   */
  datatype Route = Route(origin: Airport?, destination: Airport?, distance: Int32)
  {
    /**
     * `Route.equals`: same pair of end airports (compared by identity, as
     * `Airport` keeps `Object.equals`), in either orientation; the distance is
     * ignored.  Java dereferences `origin`, so a route without ends throws
     * there; the only such routes are the placeholders the min/max folds
     * start from, and they are never compared.
     */
    predicate Equals(o: Route)
      ensures Equals(o) <==> {origin, destination} == {o.origin, o.destination}
    {
      var r := || (origin == o.origin && destination == o.destination)
               || (origin == o.destination && destination == o.origin);
      assert {origin, destination} == {o.origin, o.destination} ==> r by {
        if {origin, destination} == {o.origin, o.destination} {
          assert origin in {o.origin, o.destination} && destination in {o.origin, o.destination};
          assert o.origin in {origin, destination};
        }
      }
      r
    }

    /** `Integer.compare(o.distance, distance)`: routes compare in descending order of distance. */
    function CompareTo(o: Route): (r: int)
      ensures r > 0 <==> o.distance > distance
      ensures r == 0 <==> o.distance == distance
      ensures r < 0 <==> o.distance < distance
    {
      if o.distance < distance then -1 else if o.distance == distance then 0 else 1
    }
  }

  /** `Route.equals` is an equivalence that ignores distance and orientation. */
  lemma RouteEqualsIsEquivalence(a: Route, b: Route, c: Route)
    ensures a.Equals(a)
    ensures a.Equals(b) ==> b.Equals(a)
    ensures a.Equals(b) && b.Equals(c) ==> a.Equals(c)
    ensures a.Equals(Route(a.destination, a.origin, b.distance))
  {
  }

  /** Comparing routes is antisymmetric. */
  lemma RouteCompareAntisymmetric(a: Route, b: Route)
    ensures a.CompareTo(b) == -b.CompareTo(a)
  {
  }
}
