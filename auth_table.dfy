/** What each client-facing operation of the storage engine does to the
    authentication table, stated over the table's abstract value (a map from
    user name to entry).  The Storage class is proved to follow these
    definitions; the lemmas below state the promises the interface makes. */
module AuthTable {
  import opened AuthEntry

  /** Status strings sent back to the client. */
  const RES_OK: string := "___OK___"
  const ERR_USER_EXISTS: string := "ERR_USER_EXISTS"
  const ERR_LOGIN: string := "ERR_LOGIN"
  const ERR_NO_DATA: string := "ERR_NO_DATA"
  const ERR_REQ_FMT: string := "ERR_REQ_FMT"

  /** The largest content a SET may carry. */
  const MAX_CONTENT: nat := 1048576

  /** Sizes of the salt and of the salted password hash. */
  const SALT_LEN: nat := 16
  const HASH_LEN: nat := 32

  type Salt = s: Bytes | |s| == SALT_LEN witness seq(16, _ => 0)
  type Digest = d: Bytes | |d| == HASH_LEN witness seq(32, _ => 0)

  /** The salted password hash H(salt, password), left uninterpreted. */
  type Hasher = (Bytes, Bytes) -> Digest

  /** The result tuple of every operation: success, message, optional payload. */
  datatype Result = Result(succeeded: bool, msg: string, data: seq<uint8>)

  function Ok(data: seq<uint8>): Result { Result(true, RES_OK, data) }
  function Fail(msg: string): Result { Result(false, msg, []) }

  /** The authentication table: user name to entry. */
  type Table = map<Bytes, Entry>

  /** Every entry is stored under its own user name and can be written to
      the snapshot file. */
  predicate Keyed(t: Table)
  {
    forall u :: u in t ==> t[u].username == u && WellFormed(t[u])
  }

  /** `user` is registered and `pass` hashes, with the user's salt, to the
      stored hash. */
  predicate Authenticates(t: Table, h: Hasher, user: Bytes, pass: Bytes)
  {
    user in t && t[user].passHash == h(t[user].salt, pass)
  }

  /** The entry a new registration stores: zero-byte content. */
  function NewEntry(h: Hasher, user: Bytes, pass: Bytes, salt: Salt): Entry
  {
    Entry(user, salt, h(salt, pass), [])
  }

  /** add_user.  An empty user name cannot be written to the snapshot file,
      so it is refused as a malformed request. */
  function AddUser(t: Table, h: Hasher, user: Bytes, pass: Bytes, salt: Salt): (r: (Result, Table))
    ensures r.0.succeeded <==> |user| > 0 && user !in t
    ensures r.0.succeeded ==> r.0 == Ok([]) && r.1 == t[user := NewEntry(h, user, pass, salt)]
    ensures !r.0.succeeded ==> r == (Fail(if |user| == 0 then ERR_REQ_FMT else ERR_USER_EXISTS), t)
  {
    if |user| == 0 then (Fail(ERR_REQ_FMT), t)
    else if user in t then (Fail(ERR_USER_EXISTS), t)
    else (Ok([]), t[user := NewEntry(h, user, pass, salt)])
  }

  /** auth. */
  function Auth(t: Table, h: Hasher, user: Bytes, pass: Bytes): (r: Result)
    ensures r.succeeded <==> user in t && t[user].passHash == h(t[user].salt, pass)
    ensures r == Ok([]) || r == Fail(ERR_LOGIN)
  {
    if Authenticates(t, h, user, pass) then Ok([]) else Fail(ERR_LOGIN)
  }

  /** set_user_data: an oversized content is a malformed request; otherwise
      the caller's content is replaced if and only if it authenticates. */
  function SetUserData(t: Table, h: Hasher, user: Bytes, pass: Bytes, content: Bytes): (r: (Result, Table))
    ensures r.0.succeeded <==> |content| <= MAX_CONTENT && Authenticates(t, h, user, pass)
    ensures r.1.Keys == t.Keys
    ensures r.0.succeeded ==> r.0 == Ok([]) && r.1 == t[user := t[user].(content := content)]
    ensures forall u :: u in t && u != user ==> r.1[u] == t[u]
    ensures !r.0.succeeded ==> r == (Fail(if |content| > MAX_CONTENT then ERR_REQ_FMT else ERR_LOGIN), t)
  {
    if |content| > MAX_CONTENT then (Fail(ERR_REQ_FMT), t)
    else if !Authenticates(t, h, user, pass) then (Fail(ERR_LOGIN), t)
    else (Ok([]), t[user := t[user].(content := content)])
  }

  /** get_user_data: any authenticated caller may read `who`'s content;
      an absent `who` or an empty content is "no data". */
  function GetUserData(t: Table, h: Hasher, user: Bytes, pass: Bytes, who: Bytes): (r: Result)
    ensures r.succeeded <==> Authenticates(t, h, user, pass) && who in t && |t[who].content| > 0
    ensures r.succeeded ==> r == Ok(t[who].content)
    ensures !r.succeeded ==> r == Fail(if Authenticates(t, h, user, pass) then ERR_NO_DATA else ERR_LOGIN)
  {
    if !Authenticates(t, h, user, pass) then Fail(ERR_LOGIN)
    else if who !in t || |t[who].content| == 0 then Fail(ERR_NO_DATA)
    else Ok(t[who].content)
  }

  /** The byte '\n' that ends each line of a listing. */
  const NEWLINE: uint8 := 10

  /** The newline-delimited listing of `names`: each name followed by '\n'. */
  function Listing(names: seq<Bytes>): (r: seq<uint8>)
    ensures |r| >= |names|
    ensures r == [] <==> names == []
    ensures names != [] ==> r[|r| - 1] == NEWLINE
  {
    if names == [] then [] else names[0] + [NEWLINE] + Listing(names[1..])
  }

  /** The names of a listing, read back line by line. */
  function Lines(s: seq<uint8>): seq<seq<uint8>>
  {
    LinesFrom(s, [])
  }

  function LinesFrom(s: seq<uint8>, line: seq<uint8>): seq<seq<uint8>>
    decreases |s|
  {
    if s == [] then (if line == [] then [] else [line])
    else if s[0] == NEWLINE then [line] + LinesFrom(s[1..], [])
    else LinesFrom(s[1..], line + [s[0]])
  }

  // ---------------------------------------------------------------------------
  // Properties

  /** Registering an existing user fails with ERR_USER_EXISTS whatever the
      password, and leaves the table as it was: the original password still
      authenticates. */
  lemma ReRegisterFails(t: Table, h: Hasher, user: Bytes, pass: Bytes, other: Bytes, salt: Salt)
    requires user in t && |user| >= 1
    ensures AddUser(t, h, user, other, salt) == (Fail(ERR_USER_EXISTS), t)
    ensures Authenticates(t, h, user, pass) ==> Authenticates(AddUser(t, h, user, other, salt).1, h, user, pass)
  {
  }

  /** A successful registration stores the user with `salt`, H(salt, pass) and
      no content: the password then authenticates, and reading the new user's
      content is "no data". */
  lemma RegisterFresh(t: Table, h: Hasher, user: Bytes, pass: Bytes, salt: Salt, caller: Bytes, cpass: Bytes)
    requires |user| >= 1 && user !in t
    ensures AddUser(t, h, user, pass, salt).0 == Ok([])
    ensures AddUser(t, h, user, pass, salt).1[user] == Entry(user, salt, h(salt, pass), [])
    ensures Authenticates(AddUser(t, h, user, pass, salt).1, h, user, pass)
    ensures Authenticates(AddUser(t, h, user, pass, salt).1, h, caller, cpass) ==>
              GetUserData(AddUser(t, h, user, pass, salt).1, h, caller, cpass, user) == Fail(ERR_NO_DATA)
  {
  }

  /** Registration never changes an existing user's entry. */
  lemma RegisterKeepsOthers(t: Table, h: Hasher, user: Bytes, pass: Bytes, salt: Salt, other: Bytes)
    requires other in t
    ensures other in AddUser(t, h, user, pass, salt).1
    ensures AddUser(t, h, user, pass, salt).1[other] == t[other]
  {
  }

  /** Registration and SET keep every entry under its own name and writable. */
  lemma OperationsKeepKeyed(t: Table, h: Hasher, user: Bytes, pass: Bytes, salt: Salt, content: Bytes)
    requires Keyed(t)
    ensures Keyed(AddUser(t, h, user, pass, salt).1)
    ensures Keyed(SetUserData(t, h, user, pass, content).1)
  {
  }

  /** A caller that does not authenticate changes nothing with SET. */
  lemma SetRequiresLogin(t: Table, h: Hasher, user: Bytes, pass: Bytes, content: Bytes)
    requires !Authenticates(t, h, user, pass)
    ensures SetUserData(t, h, user, pass, content).1 == t
    ensures !SetUserData(t, h, user, pass, content).0.succeeded
    ensures |content| <= MAX_CONTENT ==> SetUserData(t, h, user, pass, content).0.msg == ERR_LOGIN
  {
  }

  /** SET accepts a content of exactly 1048576 bytes and refuses one byte more
      with ERR_REQ_FMT. */
  lemma ContentLimit(t: Table, h: Hasher, user: Bytes, pass: Bytes, content: Bytes)
    requires Authenticates(t, h, user, pass)
    ensures |content| == MAX_CONTENT ==> SetUserData(t, h, user, pass, content).0 == Ok([])
    ensures |content| == MAX_CONTENT + 1 ==> SetUserData(t, h, user, pass, content) == (Fail(ERR_REQ_FMT), t)
  {
  }

  /** SET changes only the caller's content: the same users authenticate
      with the same passwords afterwards. */
  lemma SetKeepsLogins(t: Table, h: Hasher, user: Bytes, pass: Bytes, content: Bytes, u: Bytes, p: Bytes)
    ensures SetUserData(t, h, user, pass, content).1.Keys == t.Keys
    ensures Authenticates(SetUserData(t, h, user, pass, content).1, h, u, p) <==> Authenticates(t, h, u, p)
  {
  }

  /** GET returns exactly the bytes last SET, to any authenticated caller;
      an empty content reads as "no data". */
  lemma SetThenGet(t: Table, h: Hasher, user: Bytes, pass: Bytes, content: Bytes, caller: Bytes, cpass: Bytes)
    requires Authenticates(t, h, user, pass) && |content| <= MAX_CONTENT
    requires Authenticates(t, h, caller, cpass)
    ensures GetUserData(SetUserData(t, h, user, pass, content).1, h, caller, cpass, user)
            == if |content| == 0 then Fail(ERR_NO_DATA) else Ok(content)
  {
    SetKeepsLogins(t, h, user, pass, content, caller, cpass);
  }

  /** Reading a listing back line by line gives the names, when no name
      contains a newline and none is empty. */
  lemma {:induction false} ListingLines(names: seq<Bytes>)
    requires forall n :: n in names ==> |n| > 0 && NEWLINE !in n
    ensures Lines(Listing(names)) == names
  {
    if names != [] {
      var rest := Listing(names[1..]);
      LineThenRest(names[0], [], rest);
      assert Listing(names) == names[0] + ([NEWLINE] + rest);
      assert [] + names[0] == names[0];
      ListingLines(names[1..]);
      assert Lines(Listing(names)) == [names[0]] + Lines(rest);
      assert names == [names[0]] + names[1..];
    }
  }

  /** Scanning a line without newlines, then a newline, emits that line. */
  lemma {:induction false} LineThenRest(n: seq<uint8>, line: seq<uint8>, rest: seq<uint8>)
    requires NEWLINE !in n
    ensures LinesFrom(n + ([NEWLINE] + rest), line) == [line + n] + LinesFrom(rest, [])
  {
    if n == [] {
      var s := [NEWLINE] + rest;
      assert n + s == s;
      assert s[0] == NEWLINE && s[1..] == rest;
      assert line + n == line;
    } else {
      assert (n + ([NEWLINE] + rest))[1..] == n[1..] + ([NEWLINE] + rest);
      assert (n + ([NEWLINE] + rest))[0] == n[0];
      LineThenRest(n[1..], line + [n[0]], rest);
      assert line + [n[0]] + n[1..] == line + n;
    }
  }
}
