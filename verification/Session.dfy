/** Session identifiers: `SessionId` in src/session/mod.rs. */
module Session {
  import opened Octets

  type SessionId = U64

  const STREAM_SPACE: nat := 0x100_0000_0000
  const CONN_SPACE: nat := 0x100_0000

  /** `(conn_seq << 40) | (stream_id & (2^40 - 1))` on 64 bits: the shift drops all but the low 24 bits of the counter,
      and the two halves share no bit. */
  function Compose(connSeq: U64, streamId: U64): (id: SessionId)
    ensures StreamOf(id) == streamId % STREAM_SPACE && ConnOf(id) == connSeq % CONN_SPACE
  {
    connSeq % CONN_SPACE * STREAM_SPACE + streamId % STREAM_SPACE
  }

  function StreamOf(id: SessionId): nat {
    id % STREAM_SPACE
  }

  function ConnOf(id: SessionId): nat {
    id / STREAM_SPACE
  }

  /** Two request streams share a session id exactly when counters agree modulo 2^24 and stream ids modulo 2^40. */
  lemma ComposeCollides(c: U64, s: U64, d: U64, t: U64)
    ensures Compose(c, s) == Compose(d, t) <==> c % CONN_SPACE == d % CONN_SPACE && s % STREAM_SPACE == t % STREAM_SPACE
  {
    var x, y := Compose(c, s), Compose(d, t);
    assert x == y ==> StreamOf(x) == StreamOf(y) && ConnOf(x) == ConnOf(y);
  }

  /** Identifiers are unique on the counters and streams that fit; the first counter past them repeats an identifier. */
  lemma ComposeInjective(c: U64, s: U64, d: U64, t: U64)
    requires c < CONN_SPACE && d < CONN_SPACE && s < STREAM_SPACE && t < STREAM_SPACE
    ensures Compose(c, s) == Compose(d, t) <==> c == d && s == t
    ensures Compose(CONN_SPACE, s) == Compose(0, s)
  {
    ComposeCollides(c, s, d, t);
  }
}
