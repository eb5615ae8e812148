/** The `usuario` table as an in-memory map from the (normalised) e-mail
    address, its unique key, to the user row; ids come from a counter as the
    SERIAL column's sequence hands them out. */
module Accounts {
  import opened Outcomes
  import opened Dates
  import opened Passwords
  import Text

  datatype User = User(
    id: nat,
    name: string,
    phone: string,
    email: string,
    passwordHash: Digest,
    birth: Date)

  /** The `{id, nome, email}` object the handlers return. */
  datatype UserView = UserView(id: nat, name: string, email: string)

  function View(u: User): UserView {
    UserView(u.id, u.name, u.email)
  }

  datatype Store = Store(users: map<string, User>, nextId: nat)

  /** A fresh table: no rows, and the sequence starts at 1. */
  const EmptyStore := Store(map[], 1)

  /** Every row sits under its own e-mail, ids lie below the counter and no
      two rows share an id. */
  ghost predicate Consistent(st: Store) {
    && (forall e :: e in st.users ==> st.users[e].email == e && st.users[e].id < st.nextId)
    && (forall e, f :: e in st.users && f in st.users && e != f ==> st.users[e].id != st.users[f].id)
  }

  /** `email.strip().lower()`, applied to the address field by both the
      registration and the login handler. */
  function NormalizeEmail(raw: string): (email: string)
    ensures |email| <= |raw|
    ensures email == [] <==> Text.AllSpace(raw)
  {
    Text.StripCharacterized(raw);
    Text.Lower(Text.Strip(raw))
  }

  /** Normalising an address that is already normalised changes nothing. */
  lemma {:induction false} NormalizeEmailIdempotent(raw: string)
    ensures NormalizeEmail(NormalizeEmail(raw)) == NormalizeEmail(raw)
  {
    var stripped := Text.Strip(raw);
    Text.StripCharacterized(raw);
    Text.StripLowerCommute(stripped);
    Text.StripIdempotent(raw);
    Text.LowerNormalizes(stripped);
  }

  /** Two addresses that differ only in letter case normalise to the same
      key. */
  lemma CaseVariantsNormalizeAlike(a: string, b: string)
    requires Text.Lower(a) == Text.Lower(b)
    ensures NormalizeEmail(a) == NormalizeEmail(b)
  {
    Text.StripLowerCommute(a);
    Text.StripLowerCommute(b);
  }

  /** `INSERT ... RETURNING id`: a new row under `email` with the next id;
      every other row is kept as it was. */
  function Insert(st: Store, name: string, phone: string, email: string, digest: Digest, birth: Date): (r: Store)
    requires email !in st.users
    ensures r.users.Keys == st.users.Keys + {email}
    ensures |r.users| == |st.users| + 1
    ensures forall e :: e in st.users ==> r.users[e] == st.users[e]
    ensures r.users[email] == User(st.nextId, name, phone, email, digest, birth)
    ensures r.nextId > st.nextId
    ensures Consistent(st) ==> Consistent(r)
  {
    Store(st.users[email := User(st.nextId, name, phone, email, digest, birth)], st.nextId + 1)
  }
}
