/** The comment entity, the only record the service stores. */
module Comments {

  /** A 128-bit `System.Guid`, compared only for equality. */
  newtype Guid = n: int | 0 <= n < 0x1_0000_0000_0000_0000_0000_0000_0000_0000

  /** A `DateTime` as its count of 100-nanosecond ticks. */
  type Instant = int

  /** One comment: its key, its text, the post it belongs to, its author and
      when it was written. */
  datatype Comment = Comment(
    id: Guid,
    content: string,
    postId: Guid,
    userId: string,
    createdAt: Instant)

  /** Ticks in one millisecond, the precision of a Cassandra `timestamp`. */
  const TicksPerMillisecond: nat := 10_000

  /** The instant a `timestamp` column keeps for `t`: the whole milliseconds
      of `t`, its sub-millisecond ticks dropped. */
  function StoredInstant(t: Instant): (r: Instant)
    ensures r <= t < r + TicksPerMillisecond
    ensures r % TicksPerMillisecond == 0
    ensures r == t <==> t % TicksPerMillisecond == 0
  {
    t - t % TicksPerMillisecond
  }

  /** The comment as a row of the `comments` table holds it. */
  function Persisted(c: Comment): (p: Comment)
    ensures p.id == c.id && p.content == c.content && p.postId == c.postId && p.userId == c.userId
    ensures c.createdAt - TicksPerMillisecond < p.createdAt <= c.createdAt
    ensures p == c <==> c.createdAt % TicksPerMillisecond == 0
  {
    c.(createdAt := StoredInstant(c.createdAt))
  }

  /** Storing a comment that was read from the table changes nothing. */
  lemma PersistedIdempotent(c: Comment)
    ensures Persisted(Persisted(c)) == Persisted(c)
  {
  }
}
