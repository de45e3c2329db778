/** The storage engine of the server: the authentication table kept in a
    sequential map from user name to entry, the client-facing operations over
    it, and its persistence through the snapshot file.  The file system is a
    parameter: `LoadFile` is given the file's bytes (None when there is no
    file) and `SaveFile` returns the bytes it writes. */
module Storage {
  import opened Wrappers
  import opened AuthEntry
  import opened Format
  import opened SequentialMap
  import opened AuthTable

  /** Insert the entries of a loaded file one by one, each under its user
      name; as with `insert`, the first entry for a name is the one kept. */
  function InsertAll(t: Table, es: seq<Entry>): Table
    decreases |es|
  {
    if es == [] then t
    else InsertAll(if es[0].username in t then t else t[es[0].username := es[0]], es[1..])
  }

  /** What load_file does: start from an empty table; a missing file leaves it
      empty and is not an error; an unreadable file is an error; otherwise the
      table holds the file's entries. */
  function Load(filename: string, contents: Option<seq<uint8>>): (r: (Result, Table))
    ensures r.0.succeeded <==> contents.None? || Decode(contents.value).Some?
    ensures r.0.data == []
    ensures contents.None? || !r.0.succeeded ==> r.1 == map[]
    ensures r.0.succeeded && contents.Some? ==> Keyed(r.1)
  {
    match contents
    case None => (Result(true, "File not found: " + filename, []), map[])
    case Some(bytes) =>
      match Decode(bytes)
      case None => (Fail("Invalid file: " + filename), map[])
      case Some(es) =>
        InsertAllKeyed(map[], es);
        (Result(true, "Loaded: " + filename, []), InsertAll(map[], es))
  }

  /** Inserting well-formed entries under their own names keeps a table keyed. */
  lemma {:induction false} InsertAllKeyed(t: Table, es: seq<Entry>)
    requires Keyed(t) && AllWellFormed(es)
    ensures Keyed(InsertAll(t, es))
    decreases |es|
  {
    if es != [] {
      assert es[0] in es;
      assert forall e :: e in es[1..] ==> e in es;
      InsertAllKeyed(if es[0].username in t then t else t[es[0].username := es[0]], es[1..]);
    }
  }

  /** Entries of a list of pairs are stored under their own user names. */
  predicate KeyedPairs(s: seq<(Bytes, Entry)>)
  {
    forall i :: 0 <= i < |s| ==> s[i].0 == s[i].1.username && WellFormed(s[i].1)
  }

  /** The pairs behind a keyed table are keyed too. */
  lemma KeyedEntries(s: seq<(Bytes, Entry)>)
    requires UniqueKeys(s) && Keyed(MapOf(s))
    ensures KeyedPairs(s)
    ensures AllWellFormed(ValuesOf(s))
  {
    var m := MapOf(s);
    forall i | 0 <= i < |s|
      ensures s[i].0 == s[i].1.username && WellFormed(s[i].1)
    {
      assert s[i].0 in m && m[s[i].0] == s[i].1;
    }
    forall e | e in ValuesOf(s)
      ensures WellFormed(e)
    {
      var i :| 0 <= i < |s| && ValuesOf(s)[i] == e;
    }
  }

  /** A traversal appending each key and a newline builds the listing of the
      keys, in list order. */
  lemma {:induction false} FoldListing(s: seq<(Bytes, Entry)>, f: (seq<uint8>, Bytes, Entry) -> seq<uint8>, acc: seq<uint8>)
    requires forall a: seq<uint8>, k: Bytes, e: Entry :: f(a, k, e) == a + k + [NEWLINE]
    ensures FoldPairs(s, f, acc) == acc + Listing(KeysOf(s))
  {
    if s != [] {
      var ks := KeysOf(s);
      assert ks[0] == s[0].0;
      assert ks[1..] == KeysOf(s[1..]);
      FoldListing(s[1..], f, f(acc, s[0].0, s[0].1));
      assert Listing(ks) == s[0].0 + [NEWLINE] + Listing(ks[1..]);
    }
  }

  /** When no user name holds a newline, the lines of the listing of a
      keyed table are its names. */
  lemma ListingOfTable(s: seq<(Bytes, Entry)>)
    requires UniqueKeys(s) && Keyed(MapOf(s))
    requires forall u :: u in MapOf(s) ==> NEWLINE !in u
    ensures Lines(Listing(KeysOf(s))) == KeysOf(s)
  {
    var ks := KeysOf(s);
    KeysOfContents(s);
    forall n | n in ks
      ensures |n| > 0 && NEWLINE !in n
    {
      assert n in MapOf(s);
      assert MapOf(s)[n].username == n && WellFormed(MapOf(s)[n]);
    }
    ListingLines(ks);
  }

  /** Appending the record of each value in turn writes the snapshot file
      of the values, in list order. */
  lemma {:induction false} RecordsAreFile(s: seq<(Bytes, Entry)>)
    ensures ConcatValues(s, EncodeEntry) == Encode(ValuesOf(s))
  {
    if s != [] {
      var vs := ValuesOf(s);
      assert vs[0] == s[0].1;
      assert vs[1..] == ValuesOf(s[1..]);
      RecordsAreFile(s[1..]);
    }
  }

  /** Re-inserting the values of keyed pairs, after the first i, into the
      table of the first i rebuilds the table of all of them. */
  lemma {:induction false} InsertAllFrom(s: seq<(Bytes, Entry)>, i: nat)
    requires UniqueKeys(s) && KeyedPairs(s) && i <= |s|
    ensures UniqueKeys(s[..i])
    ensures InsertAll(MapOf(s[..i]), ValuesOf(s)[i..]) == MapOf(s)
    decreases |s| - i
  {
    PrefixUnique(s, i);
    var rest := ValuesOf(s)[i..];
    if i == |s| {
      assert s[..i] == s;
      assert rest == [];
    } else {
      PrefixUnique(s, i + 1);
      InsertOneMore(s, i);
      assert rest[0] == s[i].1 && rest[1..] == ValuesOf(s)[i + 1..];
      InsertStep(MapOf(s[..i]), rest);
      InsertAllFrom(s, i + 1);
    }
  }

  /** One step of reloading: the next entry's name is new, so it is added. */
  lemma InsertOneMore(s: seq<(Bytes, Entry)>, i: nat)
    requires UniqueKeys(s) && KeyedPairs(s) && i < |s|
    requires UniqueKeys(s[..i]) && UniqueKeys(s[..i + 1])
    ensures s[i].1.username == s[i].0 && s[i].0 !in MapOf(s[..i])
    ensures MapOf(s[..i + 1]) == MapOf(s[..i])[s[i].0 := s[i].1]
  {
    var pre := s[..i];
    NextKeyNew(s, i);
    AppendNew(pre, s[i].0, s[i].1);
    assert pre + [s[i]] == s[..i + 1];
  }

  /** Inserting an entry whose name is new adds it. */
  lemma InsertStep(t: Table, es: seq<Entry>)
    requires es != [] && es[0].username !in t
    ensures InsertAll(t, es) == InsertAll(t[es[0].username := es[0]], es[1..])
  {
  }

  /** The key at position i does not occur before it. */
  lemma NextKeyNew<K, V>(s: seq<(K, V)>, i: nat)
    requires UniqueKeys(s) && i < |s|
    ensures forall j :: 0 <= j < i ==> s[..i][j].0 != s[i].0
  {
    forall j | 0 <= j < i
      ensures s[..i][j].0 != s[i].0
    {
      assert s[..i][j] == s[j];
    }
  }

  /** A prefix of a list with distinct keys has distinct keys. */
  lemma PrefixUnique<K, V>(s: seq<(K, V)>, i: nat)
    requires UniqueKeys(s) && i <= |s|
    ensures UniqueKeys(s[..i])
  {
    forall a, b | 0 <= a < b < i
      ensures s[..i][a].0 != s[..i][b].0
    {
      assert s[..i][a] == s[a] && s[..i][b] == s[b];
    }
  }

  /** Saving a table and loading the file back gives the same table, with
      every user name, salt, hash and content as before. */
  lemma SaveThenLoad(filename: string, s: seq<(Bytes, Entry)>)
    requires UniqueKeys(s) && Keyed(MapOf(s))
    ensures Load(filename, Some(Encode(ValuesOf(s)))) == (Result(true, "Loaded: " + filename, []), MapOf(s))
  {
    var es := ValuesOf(s);
    KeyedEntries(s);
    DecodeEncode(es);
    InsertAllFrom(s, 0);
    assert s[..0] == [] && es[0..] == es;
    assert InsertAll(map[], es) == MapOf(s);
  }

  /** The storage object of the server: the name of its snapshot file, the
      salted password hash it uses, and the authentication table. */
  class Storage {
    const filename: string
    const hash: Hasher
    const authTable: SeqMap<Bytes, Entry>

    ghost predicate Valid()
      reads authTable
    {
      authTable.Valid() && Keyed(authTable.Contents())
    }

    /** The table this storage holds. */
    ghost function Table(): Table
      reads authTable
      requires Valid()
    {
      authTable.Contents()
    }

    /** An empty storage persisted to `filename`; nothing is loaded yet. */
    constructor (filename: string, hash: Hasher)
      ensures Valid() && Table() == map[]
      ensures this.filename == filename && this.hash == hash
      ensures fresh(authTable)
    {
      this.filename := filename;
      this.hash := hash;
      authTable := new SeqMap();
    }

    /** load_file: clear the table, then fill it from the file. */
    method LoadFile(contents: Option<seq<uint8>>) returns (r: Result)
      requires Valid()
      modifies authTable
      ensures Valid()
      ensures (r, Table()) == Load(filename, contents)
    {
      authTable.Clear();
      if contents.None? {
        return Result(true, "File not found: " + filename, []);
      }
      var parsed := Decode(contents.value);
      if parsed.None? {
        return Fail("Invalid file: " + filename);
      }
      var es := parsed.value;
      var i := 0;
      while i < |es|
        invariant 0 <= i <= |es|
        invariant authTable.Valid() && Keyed(authTable.Contents())
        invariant InsertAll(authTable.Contents(), es[i..]) == InsertAll(map[], es)
      {
        assert es[i] in es;
        assert es[i..][1..] == es[i + 1..];
        var _, _ := authTable.Insert(es[i].username, es[i]);
        i := i + 1;
      }
      assert es[i..] == [];
      return Result(true, "Loaded: " + filename, []);
    }

    /** add_user: store the user with `salt`, H(salt, pass) and no content,
        unless the name is taken. */
    method AddUser(user: Bytes, pass: Bytes, salt: Salt) returns (r: Result)
      requires Valid()
      modifies authTable
      ensures Valid()
      ensures (r, Table()) == AuthTable.AddUser(old(Table()), hash, user, pass, salt)
    {
      if |user| == 0 {
        return Fail(ERR_REQ_FMT);
      }
      var inserted, _ := authTable.Insert(user, NewEntry(hash, user, pass, salt));
      r := if inserted then Ok([]) else Fail(ERR_USER_EXISTS);
    }

    /** auth: look the user up and compare the salted hash. */
    method Auth(user: Bytes, pass: Bytes) returns (r: Result)
      requires Valid()
      ensures r == AuthTable.Auth(Table(), hash, user, pass)
    {
      var h := hash;
      var matches := authTable.DoWithReadonly(user, (e: Entry) => e.passHash == h(e.salt, pass));
      r := if matches == Some(true) then Ok([]) else Fail(ERR_LOGIN);
    }

    /** set_user_data: replace the caller's content after authenticating. */
    method SetUserData(user: Bytes, pass: Bytes, content: Bytes) returns (r: Result)
      requires Valid()
      modifies authTable
      ensures Valid()
      ensures (r, Table()) == AuthTable.SetUserData(old(Table()), hash, user, pass, content)
    {
      if |content| > MAX_CONTENT {
        return Fail(ERR_REQ_FMT);
      }
      r := Auth(user, pass);
      if !r.succeeded {
        return;
      }
      var _ := authTable.DoWith(user, (e: Entry) => e.(content := content));
      r := Ok([]);
    }

    /** get_user_data: any authenticated caller reads `who`'s content. */
    method GetUserData(user: Bytes, pass: Bytes, who: Bytes) returns (r: Result)
      requires Valid()
      ensures r == AuthTable.GetUserData(Table(), hash, user, pass, who)
    {
      r := Auth(user, pass);
      if !r.succeeded {
        return;
      }
      var content := authTable.DoWithReadonly(who, (e: Entry) => e.content);
      if content.None? || |content.value| == 0 {
        return Fail(ERR_NO_DATA);
      }
      r := Ok(content.value);
    }

    /** get_all_users: after authenticating, every user name followed by a
        newline, in the table's order.  Each registered name appears exactly
        once, and the lines of the listing are the names. */
    method GetAllUsers(user: Bytes, pass: Bytes) returns (r: Result)
      requires Valid()
      ensures !Authenticates(Table(), hash, user, pass) ==> r == Fail(ERR_LOGIN)
      ensures Authenticates(Table(), hash, user, pass) ==> r == Ok(Listing(KeysOf(authTable.entries)))
      ensures forall u :: u in KeysOf(authTable.entries) <==> u in Table()
      ensures forall i, j :: 0 <= i < j < |authTable.entries| ==> KeysOf(authTable.entries)[i] != KeysOf(authTable.entries)[j]
      ensures r.succeeded && (forall u :: u in Table() ==> NEWLINE !in u) ==> Lines(r.data) == KeysOf(authTable.entries)
    {
      KeysOfContents(authTable.entries);
      r := Auth(user, pass);
      if !r.succeeded {
        return;
      }
      var f := (a: seq<uint8>, k: Bytes, e: Entry) => a + k + [NEWLINE];
      var names, _ := authTable.DoAllReadonly(f, []);
      FoldListing(authTable.entries, f, []);
      r := Ok(names);
      if forall u :: u in Table() ==> NEWLINE !in u {
        ListingOfTable(authTable.entries);
      }
    }

    /** save_file: the bytes written are the records of every entry, in the
        table's order, and they load back to the same table. */
    method SaveFile() returns (r: Result, bytes: seq<uint8>)
      requires Valid()
      ensures r == Ok([])
      ensures bytes == Encode(ValuesOf(authTable.entries))
      ensures Load(filename, Some(bytes)) == (Result(true, "Loaded: " + filename, []), Table())
    {
      var f := (a: seq<uint8>, k: Bytes, e: Entry) => a + EncodeEntry(e);
      var fired;
      bytes, fired := authTable.DoAllReadonly(f, []);
      FoldAppends(authTable.entries, f, EncodeEntry, []);
      RecordsAreFile(authTable.entries);
      SaveThenLoad(filename, authTable.entries);
      r := Ok([]);
    }

    /** The SAV request: persist the table, but only for a caller that
        authenticates.  Returns the bytes written, if any. */
    method HandleSav(user: Bytes, pass: Bytes) returns (r: Result, written: Option<seq<uint8>>)
      requires Valid()
      ensures r == if Authenticates(Table(), hash, user, pass) then Ok([]) else Fail(ERR_LOGIN)
      ensures !r.succeeded ==> written == None
      ensures r.succeeded ==> written == Some(Encode(ValuesOf(authTable.entries)))
    {
      r := Auth(user, pass);
      if !r.succeeded {
        return r, None;
      }
      var bytes;
      r, bytes := SaveFile();
      written := Some(bytes);
    }

    /** The BYE request: the server stops exactly when the caller
        authenticates. */
    method HandleBye(user: Bytes, pass: Bytes) returns (r: Result, stop: bool)
      requires Valid()
      ensures stop <==> Authenticates(Table(), hash, user, pass)
      ensures r == if stop then Ok([]) else Fail(ERR_LOGIN)
    {
      r := Auth(user, pass);
      stop := r.succeeded;
    }
  }
}
