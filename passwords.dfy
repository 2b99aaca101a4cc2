/** The two calls the application makes into werkzeug.security. They are foreign
    code, so the model takes them as parameters: `hash(salt, password)` is
    generate_password_hash with the random salt it draws, and
    `check(stored, password)` is check_password_hash. */
module Passwords {
  datatype Hasher = Hasher(hash: (string, string) -> string, check: (string, string) -> bool)

  /** check_password_hash accepts the password a stored hash was made from. */
  ghost predicate Sound(h: Hasher)
  {
    forall salt, password :: h.check(h.hash(salt, password), password)
  }

  /** check_password_hash accepts no other password (the hash has no collisions). */
  ghost predicate Exact(h: Hasher)
  {
    forall salt, password, other :: h.check(h.hash(salt, password), other) ==> other == password
  }
}
