/** The session helpers of src/utils/auth.ts. The browser's `localStorage` is
    a map from keys to strings; the decoding of a token's payload segment
    (`JSON.parse(atob(segment))`) is a parameter, so the results hold for
    every token format. */
module Auth {
  import opened Wrappers
  import Text

  /** What decoding one payload segment gives: an exception, JSON `null`, or
      another JSON value, whose `tr_number` field is read (absent when the
      value has no such string field). */
  datatype Decoded = Throws | NullValue | Value(trNumber: Option<string>)

  datatype Decoder = Decoder(decode: string -> Decoded)

  /** `token.split('.')[1]`, with a missing segment turned into the text
      "undefined" as `atob` receives it. */
  function PayloadSegment(token: string): (seg: string)
    ensures '.' !in seg || seg == "undefined"
  {
    var parts := Text.Split(token, '.');
    if |parts| >= 2 then parts[1] else "undefined"
  }

  /** A token made of a header, a payload and a signature yields its payload
      segment. */
  lemma PayloadOfThreeParts(header: string, payload: string, signature: string)
    requires '.' !in header && '.' !in payload && '.' !in signature
    ensures PayloadSegment(Text.Join([header, payload, signature], '.')) == payload
  {
    Text.SplitJoin([header, payload, signature], '.');
  }

  /** `decodeToken`: the payload, or `null` when decoding throws or gives
      `null`. */
  function DecodeToken(dec: Decoder, token: string): (r: Option<Option<string>>)
    ensures r.None? <==> dec.decode(PayloadSegment(token)) in {Throws, NullValue}
    ensures r.Some? ==> dec.decode(PayloadSegment(token)) == Value(r.value)
  {
    match dec.decode(PayloadSegment(token))
    case Value(tr) => Some(tr)
    case _ => None
  }

  /** The signed-in user as `getCurrentUser` reports it. */
  datatype User = User(trNumber: Option<string>, role: string)

  /** No user (`null`), a user, or an exception escaping the call. */
  datatype Lookup = NoUser | Found(user: User) | Raises

  /** The stored value under `key`, as a truth test sees it: a missing key and
      an empty string are both false. */
  predicate Present(storage: map<string, string>, key: string) {
    key in storage && storage[key] != ""
  }

  /** `getCurrentUser`. Unlike `decodeToken`, a payload that cannot be
      decoded, or decodes to `null`, makes the call throw. */
  function GetCurrentUser(storage: map<string, string>, dec: Decoder): (r: Lookup)
    ensures r.NoUser? <==> !Present(storage, "token") || !Present(storage, "role")
    ensures r.Found? ==> r.user.role == storage["role"]
                         && dec.decode(PayloadSegment(storage["token"])) == Value(r.user.trNumber)
    ensures r.Raises? ==> dec.decode(PayloadSegment(storage["token"])) in {Throws, NullValue}
  {
    if !Present(storage, "token") || !Present(storage, "role") then NoUser
    else
      match dec.decode(PayloadSegment(storage["token"]))
      case Value(tr) => Found(User(tr, storage["role"]))
      case _ => Raises
  }

  /** Where `decodeToken` gives `null`, `getCurrentUser` throws instead, as
      long as a token and a role are stored. */
  lemma UndecodableTokenRaises(storage: map<string, string>, dec: Decoder)
    requires Present(storage, "token") && Present(storage, "role")
    ensures DecodeToken(dec, storage["token"]).None? <==> GetCurrentUser(storage, dec) == Raises
    ensures DecodeToken(dec, storage["token"]).Some?
            ==> GetCurrentUser(storage, dec) == Found(User(DecodeToken(dec, storage["token"]).value, storage["role"]))
  {
  }

  /** `isAdmin`. */
  predicate IsAdmin(u: User) {
    u.role == "admin"
  }

  /** A stored role decides admin rights; the token only supplies the TR
      number. */
  lemma AdminFromStoredRole(storage: map<string, string>, dec: Decoder)
    requires GetCurrentUser(storage, dec).Found?
    ensures IsAdmin(GetCurrentUser(storage, dec).user) <==> storage["role"] == "admin"
  {
  }

  class Session {
    var storage: map<string, string>

    constructor (storage: map<string, string>)
      ensures this.storage == storage
    {
      this.storage := storage;
    }

    /** The current user, read from this session's storage. */
    function CurrentUser(dec: Decoder): (r: Lookup)
      reads this
    {
      GetCurrentUser(storage, dec)
    }

    /** `logout`: only the token is removed, the stored role stays, and no
        user is signed in afterwards. */
    method Logout()
      modifies this
      ensures storage == old(storage) - {"token"}
      ensures "role" in old(storage) ==> "role" in storage && storage["role"] == old(storage)["role"]
      ensures forall dec :: CurrentUser(dec) == NoUser
    {
      storage := storage - {"token"};
    }
  }

  /** After a logout no decoder finds a user, whatever else is stored. */
  lemma LoggedOutHasNoUser(storage: map<string, string>, dec: Decoder)
    ensures GetCurrentUser(storage - {"token"}, dec) == NoUser
  {
  }
}
