/**
 The records the graph engine consumes: a lodge, known to the engine only by
 its id, and a connection (a trail between two lodges) whose identity is its
 id alone.
 */
module Connections {

  /** A lodge record. `details` stands for the remaining fields of the record
      (name, altitude, ...), which the engine never looks at. */
  datatype Lodge = Lodge(id: int, details: string)

  /** A trail between two lodges, established in `year`. */
  datatype Connection = Connection(
    id: int,
    lodge1: Lodge,
    lodge2: Lodge,
    distance: int,
    difficulty: string,
    duration: string,
    year: int)

  /** The right-hand side of an equality test: any value at all, which is
      either a connection or something else. */
  datatype Value = AConnection(conn: Connection) | NotAConnection

  /** Equality of a connection with an arbitrary value: only a connection with
      the same id is equal to it. */
  predicate Equals(c: Connection, other: Value)
    ensures other == AConnection(c) ==> Equals(c, other)
    ensures other == NotAConnection ==> !Equals(c, other)
    ensures other.AConnection? ==> (Equals(c, other) <==> c.id == other.conn.id)
  {
    other.AConnection? && c.id == other.conn.id
  }

  /** Equality between two connections. */
  predicate SameConnection(a: Connection, b: Connection)
    ensures SameConnection(a, b) <==> a.id == b.id
  {
    Equals(a, AConnection(b))
  }

  lemma EqualsIffSameId(a: Connection, b: Connection)
    ensures SameConnection(a, b) <==> a.id == b.id
  {
  }

  /** Two connections that differ in any field but the id are still equal. */
  lemma EqualsIgnoresPayload(a: Connection, l1: Lodge, l2: Lodge, distance: int,
                             difficulty: string, duration: string, year: int)
    ensures SameConnection(a, Connection(a.id, l1, l2, distance, difficulty, duration, year))
  {
  }

  lemma NeverEqualsNonConnection(a: Connection)
    ensures !Equals(a, NotAConnection)
  {
  }

  lemma SameConnectionIsEquivalence(a: Connection, b: Connection, c: Connection)
    ensures SameConnection(a, a)
    ensures SameConnection(a, b) ==> SameConnection(b, a)
    ensures SameConnection(a, b) && SameConnection(b, c) ==> SameConnection(a, c)
  {
  }
}
