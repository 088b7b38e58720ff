/**
 * The remembered preferred contact action, kept in the browser's key/value
 * store. Any store access can throw (no store, private browsing); both the
 * read and the write swallow that failure.
 */
module UserPrefs {
  import opened Wrappers

  const Key := "omni_preferred_action"

  datatype PreferredAction = Call | Email

  /** The string each action is stored as. */
  function Encode(a: PreferredAction): (s: string)
    ensures s == "call" || s == "email"
  {
    match a
    case Call => "call"
    case Email => "email"
  }

  /** The key/value store: one whose every access throws, or a working one with its items. */
  datatype Store = Unavailable | Available(items: map<string, string>)

  /** The item under `key`; `None` when it is missing or the store throws. */
  function GetItem(s: Store, key: string): Option<string> {
    if s.Available? && key in s.items then Some(s.items[key]) else None
  }

  /** The stored preference, normalised: exactly the strings of the two actions are recognised, anything else means Call. */
  function PreferredIn(s: Store): (a: PreferredAction)
    ensures GetItem(s, Key) == Some("email") ==> a == Email
    ensures GetItem(s, Key) != Some("email") ==> a == Call
  {
    match GetItem(s, Key)
    case Some(v) => if v == "email" then Email else Call
    case None => Call
  }

  /** A stored string is returned as it is exactly when it is one of the two actions. */
  lemma RecognisedValues(s: Store, v: string)
    requires GetItem(s, Key) == Some(v)
    ensures (exists a :: Encode(a) == v && PreferredIn(s) == a) <==> v == "call" || v == "email"
  {
    if v == "call" {
      assert Encode(Call) == v;
    } else if v == "email" {
      assert Encode(Email) == v;
    }
  }

  /** The store after writing the preference; a throwing store stays as it was and nothing propagates. */
  function WithPreferred(s: Store, a: PreferredAction): (t: Store)
    ensures t.Unavailable? <==> s.Unavailable?
    ensures t.Available? ==> Key in t.items && t.items[Key] == Encode(a)
  {
    match s
    case Unavailable => Unavailable
    case Available(items) => Available(items[Key := Encode(a)])
  }

  /** With a working store, reading after writing gives back the written action. */
  lemma ReadAfterWrite(s: Store, a: PreferredAction)
    requires s.Available?
    ensures PreferredIn(WithPreferred(s, a)) == a
  {
  }

  /** A throwing store is left alone by a write, and reads as Call. */
  lemma UnavailableStore(a: PreferredAction)
    ensures WithPreferred(Unavailable, a) == Unavailable
    ensures PreferredIn(Unavailable) == Call
  {
  }

  /** A write touches no key but the preference's. */
  lemma OnlyKeyTouched(s: Store, a: PreferredAction, other: string)
    requires other != Key
    ensures GetItem(WithPreferred(s, a), other) == GetItem(s, other)
  {
  }

  /** Writing twice is writing once with the last action. */
  lemma LastWriteWins(s: Store, a: PreferredAction, b: PreferredAction)
    ensures WithPreferred(WithPreferred(s, a), b) == WithPreferred(s, b)
  {
    if s.Available? {
      assert WithPreferred(WithPreferred(s, a), b).items == s.items[Key := Encode(b)];
    }
  }

  /** The page's handle on the store, which the write mutates. */
  class LocalStorage {
    var store: Store

    constructor (initial: Store)
      ensures store == initial
    {
      store := initial;
    }

    function GetPreferredAction(): (a: PreferredAction)
      reads this
      ensures a == Email <==> GetItem(store, Key) == Some("email")
    {
      PreferredIn(store)
    }

    method SetPreferredAction(a: PreferredAction)
      modifies this
      ensures store == WithPreferred(old(store), a)
      ensures store.Available? ==> GetPreferredAction() == a
    {
      if store.Available? {
        store := Available(store.items[Key := Encode(a)]);
      }
    }
  }
}
