/** The Redis-backed idempotency guard (service/IdempotencyService.java),
    modelled as the set of keys Redis holds. The store key is the prefix
    "idempotency:" followed by the UUID's text, an injective encoding, so the
    model keys on the UUID itself; a null UUID becomes the text "null", one
    more key (`None`). `available == false` models a Redis that throws on
    every call; each operation then takes its catch branch. */
module Idempotency {
  import opened Base

  datatype Guard = Guard(keys: set<Option<Uuid>>, available: bool)

  /** The answer of `tryRegisterIdempotencyKey` and the store after it. */
  datatype Registration = Registration(registered: bool, guard: Guard)

  /** `tryRegisterIdempotencyKey`: SET NX. True when Redis did not hold the
      key (it holds it afterwards), false when it did (nothing changes); when
      Redis throws, true without registering anything (fail open). */
  function TryRegister(g: Guard, key: Option<Uuid>): (r: Registration)
    ensures r.registered <==> !g.available || key !in g.keys
    ensures g.available ==> r.guard.keys == g.keys + {key}
    ensures !r.registered || !g.available ==> r.guard == g
    ensures r.guard.available == g.available
  {
    if !g.available then Registration(true, g)
    else if key in g.keys then Registration(false, g)
    else Registration(true, g.(keys := g.keys + {key}))
  }

  /** `idempotencyKeyExists`: membership; false when Redis throws. */
  function Exists(g: Guard, key: Option<Uuid>): (b: bool)
    ensures b ==> key in g.keys
    ensures !g.available ==> !b
  {
    g.available && key in g.keys
  }

  /** `removeIdempotencyKey`: DEL; when Redis throws, nothing changes. */
  function Remove(g: Guard, key: Option<Uuid>): (r: Guard)
    ensures g.available ==> r.keys == g.keys - {key}
    ensures !g.available ==> r == g
    ensures r.available == g.available
  {
    if g.available then g.(keys := g.keys - {key}) else g
  }

  /** A registered key is reported as existing, and a second registration of
      it is refused and changes nothing. */
  lemma SecondRegistrationRefused(g: Guard, key: Option<Uuid>)
    requires g.available
    ensures Exists(TryRegister(g, key).guard, key)
    ensures TryRegister(TryRegister(g, key).guard, key)
            == Registration(false, TryRegister(g, key).guard)
  {
  }

  /** Existence is membership while Redis answers. */
  lemma ExistsIsMembership(g: Guard, key: Option<Uuid>)
    requires g.available
    ensures Exists(g, key) <==> key in g.keys
  {
  }

  /** Removing a key makes it registrable again; other keys stay. */
  lemma RemoveThenRegister(g: Guard, key: Option<Uuid>, other: Option<Uuid>)
    requires g.available && other != key
    ensures !Exists(Remove(g, key), key)
    ensures TryRegister(Remove(g, key), key).registered
    ensures Exists(Remove(g, key), other) == Exists(g, other)
  {
  }

  /** With Redis down, every registration succeeds and nothing is stored, so
      the same key is accepted any number of times. */
  lemma FailOpen(g: Guard, key: Option<Uuid>)
    requires !g.available
    ensures TryRegister(g, key) == Registration(true, g)
    ensures TryRegister(TryRegister(g, key).guard, key).registered
    ensures !Exists(g, key)
  {
  }
}
