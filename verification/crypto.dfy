/**
 * Abstract stand-ins for the two libraries the routes call: bcrypt's
 * `hash`/`compare` and jsonwebtoken's `sign`/`verify`. They are passed to
 * the handlers as function values; what the routes rely on them to do is
 * collected in `Sound`, which only the lemmas that need it assume.
 */
module Crypto {
  import opened Common
  import Header

  /** The random salt bcrypt draws for each `hash` call, made a parameter. */
  type Salt = nat

  /** `expiresIn: "24h"` in seconds (routes/auth.js:48). */
  const TokenLifetime: int := 24 * 60 * 60

  /** A decoded token payload: the signed claims plus the `iat` and `exp`
      that jsonwebtoken adds, both in seconds. */
  datatype Claims = Claims(id: Id, username: string, email: string, iat: int, exp: int)

  /** The library calls. `verify(token, now)` folds the signing secret into
      the oracle and takes the clock as `now`; `None` is any thrown error. */
  datatype Primitives = Primitives(
    hash: (string, Salt) -> string,
    compare: (string, string) -> bool,
    sign: Claims -> string,
    verify: (string, int) -> Option<Claims>)

  /** bcrypt: a password always matches its own hash, and a hash is never empty. */
  ghost predicate HashSound(p: Primitives)
  {
    && (forall password, salt :: p.compare(password, p.hash(password, salt)))
    && (forall password, salt :: p.hash(password, salt) != "")
  }

  /** jsonwebtoken: a signed token is a non-empty word without spaces, and
      it verifies to its own claims before their `exp` and is refused from
      `exp` on. */
  ghost predicate TokenSound(p: Primitives)
  {
    && (forall c :: p.sign(c) != "" && Header.Space !in p.sign(c))
    && (forall c: Claims, now: int ::
         p.verify(p.sign(c), now) == if now < c.exp then Some(c) else None)
  }

  ghost predicate Sound(p: Primitives)
  {
    HashSound(p) && TokenSound(p)
  }
}
