/**
  One row of auth_sessions and what each repository statement does to it.
 */
module SessionRows {
  import opened Wrappers

  type Sid = nat
  type UserId = nat
  // A token and its hash are identified: the hash is taken to be injective.
  type Hash = nat
  type Time = int

  datatype Session = Session(
    user: UserId,
    current: Hash,
    previous: Option<Hash>,
    rotations: nat,
    expires: Time,
    revokedAt: Option<Time>)

  /** revokedSessionRetention, in seconds. */
  const RETENTION: Time := 7 * 24 * 3600

  predicate Presents(s: Session, h: Hash) {
    s.current == h || s.previous == Some(h)
  }

  predicate Active(s: Session, now: Time) {
    s.revokedAt.None? && now < s.expires
  }

  predicate Sweepable(s: Session, now: Time) {
    s.expires < now || (s.revokedAt.Some? && s.revokedAt.value < now - RETENTION)
  }

  function Rotated(s: Session, newHash: Hash, expires: Time): Session {
    Session(s.user, newHash, Some(s.current), s.rotations + 1, expires, s.revokedAt)
  }

  function Revoked(s: Session, now: Time): Session {
    if s.revokedAt.None? then s.(revokedAt := Some(now)) else s
  }
}
