/**
 * The password encoder bean (a BCryptPasswordEncoder). Its algorithm is not part of this model:
 * an encoder is two total functions, and the law below is what the account service relies on.
 */
module Passwords {

  datatype PasswordEncoder = PasswordEncoder(
    encode: string -> string,
    matches: (string, string) -> bool)

  /** A password matches its own encoding. */
  ghost predicate Sound(p: PasswordEncoder) {
    forall raw :: p.matches(raw, p.encode(raw))
  }

  /** An encoder that stores passwords verbatim: it shows that the law can hold. */
  function Verbatim(): PasswordEncoder {
    PasswordEncoder(raw => raw, (raw, encoded) => raw == encoded)
  }

  lemma VerbatimIsSound()
    ensures Sound(Verbatim())
  {
  }
}
