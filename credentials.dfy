/**
 * The password hashing library, kept abstract. `hash` is salted, so the salt is
 * an explicit argument (the library draws it at random); `compare` checks a
 * plaintext against a stored hash. Nothing about the algorithm is modelled.
 */
module Credentials {

  datatype Bcrypt = Bcrypt(hash: (string, string) -> string, compare: (string, string) -> bool)

  /**
   * What the controllers rely on: a hash never equals the password it was made
   * from, and a password always matches a hash made from it, whatever the salt.
   */
  ghost predicate Sound(b: Bcrypt) {
    forall password, salt :: b.hash(password, salt) != password && b.compare(password, b.hash(password, salt))
  }
}
