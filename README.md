# User-directory server, phase 1: a verified model

This project models the core of the phase-1 user-directory server and client, written in C++. Clients register with a name and password, then authenticate to store and read one binary blob per user. Any authenticated user may list the registered names, persist the table to disk, or stop the server. The model covers six pieces:

- **Sequential map** (`sequential_map.dfy`, module `SequentialMap`). This is `SequentialMap<K,V>`: a list of key/value pairs with distinct keys, modelled as the class `SeqMap` over a `seq<(K, V)>`.
  - Each operation that looks up or changes a key is proved against the abstract mapping `Contents()`; `Find` returns a position in the pair list, and `DoAllReadonly` is proved against the pair list itself, in order.
  - The callbacks the source takes (`on_success`, `on_ins`, `on_upd`, `then`) appear in a returned `fired` sequence, in the order they run.
- **Authentication table** (`authentry.dfy`, `auth_table.dfy`). `AuthEntry` is the record type.
  - `AuthTable` gives, as pure functions over a map from user name to entry, what each client-facing operation does: `add_user`, `auth`, `set_user_data`, `get_user_data`, and the listing of `get_all_users`.
  - It also gives the status strings `___OK___`, `ERR_USER_EXISTS`, `ERR_LOGIN`, `ERR_NO_DATA` and `ERR_REQ_FMT`, and proves the promises the interface makes.
- **Storage engine** (`storage.dfy`, module `Storage`). The class `Storage` holds the table in a `SeqMap`. Each method is proved against a specification function: `AddUser`, `Auth`, `SetUserData`, `GetUserData` and `GetAllUsers` against the matching `AuthTable` function or listing, `LoadFile` against `Storage.Load`, `SaveFile` against `Format.Encode`, and the SAV and BYE handlers against `AuthTable.Authenticates`.
  - `LoadFile` clears the table and refills it from the file.
  - `SaveFile` writes every record.
  - The SAV and BYE handlers are gated on authentication.
- **Snapshot file format** (`format.dfy`, `padding.dfy`).
  - Each record is the 8-byte tag `AUTHAUTH`, then four length-prefixed fields (user name, salt, password hash, content), then zero padding to the next multiple of 8.
  - `Next8` is the padding arithmetic.
  - The model proves that decoding inverts encoding, and proves the record and file sizes.
  - The 8-byte lengths are written little-endian. The source says only "binary write", so the byte order is a choice of this model.
- **Client** (`client.dfy`, module `Client`).
  - The `arg_t` constructor reads getopt's options in a loop, where the last occurrence wins and an unknown letter rejects. It then checks the command against the zero- and one-argument tables; the two-argument table is empty.
  - `main` calls the one request function whose tag equals the command.
- **Scoped cleanup** (`context_manager.dfy`, module `Cleanup`). `ContextManager` runs its action at scope exit iff it is still enabled.
  - `GuardedSetup` is the pattern of `create_server_socket` and `create_aes_context`: set-up steps that return early on failure, then disable the guard on success.

Things the source takes from its environment are parameters of the model:

- The password hash is an uninterpreted function `(salt, password) -> 32-byte digest`, fixed when the storage is built.
- The 16-byte salt is a parameter of `AddUser`, because it comes from a random source.
- The file system is a parameter: `LoadFile` receives the file's bytes, or `None` when there is no file, and `SaveFile` returns the bytes it writes.
- getopt's output is a sequence of (letter, argument) pairs.

## Model

| member | source | states |
|---|---|---|
| Padding.Next8 | p1/scripts/cse303.py:409-414 | next8(n) is a multiple of 8, n <= next8(n) < n + 8, and next8(n) == n exactly when n is a multiple of 8 |
| Padding.PadLen | p1/server/format.h:26-27 | the padding after n record bytes is fewer than 8 bytes, brings the length to a multiple of 8, and is empty exactly when n is already aligned |
| Padding.Next8Idempotent | p1/scripts/cse303.py:409-414 | next8 applied twice is next8 applied once |
| Padding.Next8Least | p1/scripts/cse303.py:409-414 | next8(n) is no larger than any multiple of 8 that is at least n |
| Padding.Next8Monotone | p1/scripts/cse303.py:409-414 | next8 is monotone |
| Padding.Next8Shift | p1/server/format.h:26-27 | shifting a record by a multiple of 8 shifts its padded end by the same amount, so records stay aligned |
| Format.LengthPrefix | p1/server/format.h:17 | a length is written as exactly 8 bytes that read back as that length |
| Format.LittleEndianRoundTrip | p1/server/format.h:17 | reading back k bytes written for a number below 256^k gives the number |
| Format.LittleEndianInjective | p1/server/format.h:29-31 | two 8-byte prefixes that denote the same length are the same bytes, so a length has exactly one encoding |
| Format.Field | p1/server/format.h:17-25 | a field is its 8-byte length followed by exactly its bytes, so an empty field is the prefix alone |
| Format.EncodeEntry | p1/server/format.h:15-27 | a record starts with AUTHAUTH and is next8(8+8+len(user)+8+len(salt)+8+len(hash)+8+len(content)) bytes long, a multiple of 8 |
| Format.ReadField | p1/server/format.h:17-25 | a field read back is a length prefix, exactly that many bytes, and the rest; a prefix longer than the input is refused |
| Format.DecodeEntry | p1/server/format.h:29-32 | a record read back has a user name, salt and hash of at least one byte, and consumes exactly its padded size |
| Format.Decode | p1/server/format.h:29-32 | every entry of a parsed file has a non-empty user name, salt and hash |
| Format.Encode | p1/server/format.h:29-31 | the file is empty exactly when there are no entries (its size and its inverse are Format.EncodeSize and Format.DecodeEncode) |
| Format.EncodeSize | p1/scripts/grading_p1_file.py:93-96 | the file is exactly as long as the sum of its padded record sizes, a multiple of 8 |
| Format.EncodeAppend | p1/server/format.h:29-31 | the file of two entry lists is the concatenation of their files, with no header or delimiter |
| Format.FieldRoundTrip | p1/server/format.h:17-25 | reading a field back from its encoding gives the field and leaves what follows untouched |
| Format.EntryRoundTrip | p1/server/format.h:15-32 | reading a record back from its encoding gives the entry and leaves what follows untouched |
| Format.DecodeEncode | p1/server/format.h:29-31 | decoding the file of any list of well-formed entries gives back that list, in order |
| Format.EmptyUsernameRejected | p1/server/format.h:32 | a record whose user-name field is empty is refused by the loader, whatever follows that field |
| Format.RegisteredRecordSize | p1/scripts/grading_p1_file.py:58 | the record of a freshly registered user (16-byte salt, 32-byte hash, no content) is next8(8+8+len(name)+8+16+8+32+8) bytes |
| SequentialMap.KeysOfContents | p1/server/sequentialmap.h:18-19 | the key list of the pairs names every mapped key, and no key twice |
| SequentialMap.AppendNew | p1/server/sequentialmap.h:35-47 | appending a pair with a new key keeps keys distinct and adds exactly that mapping |
| SequentialMap.ReplaceAt | p1/server/sequentialmap.h:49-64 | replacing one pair's value keeps keys distinct and remaps exactly that key |
| SequentialMap.RemoveAt | p1/server/sequentialmap.h:92-101 | dropping one pair keeps keys distinct and unmaps exactly its key |
| SequentialMap.FoldAppends | p1/server/sequentialmap.h:103-112 | a traversal whose step appends something for each value yields the starting bytes followed by those pieces, each once, in list order |
| SequentialMap.SeqMap.constructor | p1/server/sequentialmap.h:22-25 | a new map is empty |
| SequentialMap.SeqMap.Find | p1/server/sequentialmap.h:17-19 | the search returns the position of the key's pair, or -1 exactly when the key is not mapped |
| SequentialMap.SeqMap.Clear | p1/server/sequentialmap.h:30-33 | after clear the map is empty |
| SequentialMap.SeqMap.Insert | p1/server/sequentialmap.h:35-47 | true exactly when the key was absent, then the pair is appended; an existing value is never overwritten; on_success runs exactly when true |
| SequentialMap.SeqMap.Upsert | p1/server/sequentialmap.h:49-64 | the key maps to the new value afterwards; true (and on_ins) when it was absent, false (and on_upd) otherwise; exactly one callback runs |
| SequentialMap.SeqMap.DoWith | p1/server/sequentialmap.h:66-77 | true exactly when the key is present, then its value becomes f(value); otherwise nothing changes |
| SequentialMap.SeqMap.DoWithReadonly | p1/server/sequentialmap.h:79-90 | the result is present exactly when the key is mapped, and then carries f of its value; the map is not changed |
| SequentialMap.SeqMap.Remove | p1/server/sequentialmap.h:92-101 | true exactly when the key was present; afterwards it is unmapped and every other key keeps its value; on_success runs exactly when true |
| SequentialMap.SeqMap.DoAllReadonly | p1/server/sequentialmap.h:103-112 | f sees every pair once, in list order, then `then` runs once; the map is not changed |
| AuthTable.AddUser | p1/server/storage.h:60-69 | registration succeeds exactly when the name is new and non-empty, and then adds exactly the name with its salt, H(salt, pass) and empty content; on failure the table is unchanged and the reply is ERR_REQ_FMT for an empty name and ERR_USER_EXISTS for a taken one |
| AuthTable.Auth | p1/server/storage.h:106-112 | auth succeeds exactly when the user exists and the salted hash of the password matches the stored one; the reply is ___OK___ or ERR_LOGIN |
| AuthTable.SetUserData | p1/server/storage.h:71-81 | SET succeeds exactly when the content is within the limit and the caller authenticates; then the new table is the old one with only the caller's content replaced by the given bytes (name, salt and hash kept); on failure nothing changes and the reply is ERR_REQ_FMT for an oversized content, else ERR_LOGIN |
| AuthTable.GetUserData | p1/server/storage.h:83-94 | GET succeeds exactly when the caller authenticates and `who` has non-empty content, and then returns that content; otherwise ERR_LOGIN for a bad login, else ERR_NO_DATA |
| AuthTable.Listing | p1/server/storage.h:96-104 | the listing is empty exactly when there are no names, and otherwise ends with a newline |
| AuthTable.ReRegisterFails | p1/server/storage.h:60-69 | registering an existing name fails with ERR_USER_EXISTS whatever the password, the table is unchanged, and the original password still authenticates |
| AuthTable.RegisterFresh | p1/server/storage.h:60-69 | a new registration stores the name, the salt, H(salt, pass) and empty content; that password then authenticates and reading the user's content is ERR_NO_DATA |
| AuthTable.RegisterKeepsOthers | p1/server/storage.h:60-69 | registration never changes another user's entry |
| AuthTable.OperationsKeepKeyed | p1/server/storage.h:60-81 | registration and SET keep every entry under its own name and writable to the file |
| AuthTable.SetRequiresLogin | p1/server/storage.h:71-81 | a caller that does not authenticate changes nothing, and gets ERR_LOGIN for a content within the limit |
| AuthTable.ContentLimit | p1/scripts/grading_p1_basic.py:117-122 | a 1048576-byte content is accepted and a 1048577-byte one is refused with ERR_REQ_FMT, leaving the table unchanged |
| AuthTable.SetKeepsLogins | p1/server/storage.h:71-81 | SET keeps the same users, and the same passwords authenticate afterwards |
| AuthTable.SetThenGet | p1/server/storage.h:83-94 | after a SET, any authenticated caller's GET returns exactly those bytes, and an empty content is ERR_NO_DATA |
| AuthTable.ListingLines | p1/server/storage.h:96-104 | the newline-delimited listing of non-empty names without newlines reads back line by line as those names |
| Storage.Load | p1/server/storage.h:51-58 | loading succeeds exactly when the file is missing or parses; a missing or malformed file leaves the table empty; a loaded table keeps every entry under its own name |
| Storage.InsertAllKeyed | p1/server/storage.h:51-58 | inserting well-formed entries under their own names keeps every entry keyed and writable |
| Storage.FoldListing | p1/server/storage.h:96-104 | a traversal appending each name and a newline produces the listing of all names, in table order |
| Storage.ListingOfTable | p1/server/storage.h:96-104 | the lines of the listing of the table are its names, when no name holds a newline |
| Storage.RecordsAreFile | p1/server/storage.h:114-121 | the records of the entries, written one after another in table order, are the file of all entries |
| Storage.InsertAllFrom | p1/server/storage.h:51-58 | inserting the entries of a saved table one by one rebuilds that table |
| Storage.InsertOneMore | p1/server/storage.h:51-58 | while reloading a saved table, the next entry's name is not yet in the table, so inserting it adds exactly that entry |
| Storage.SaveThenLoad | p1/server/storage.h:114-121 | loading the file saved from a table succeeds with "Loaded: <file>" and gives back the same table: names, salts, hashes and contents |
| Storage.Storage.constructor | p1/server/storage.h:130-144 | a new storage is empty and remembers its file name |
| Storage.Storage.LoadFile | p1/server/storage.h:51-58 | the table is cleared first; a missing file is success with an empty table; an unreadable file is an error; otherwise exactly the file's entries are loaded |
| Storage.Storage.AddUser | p1/server/storage.h:60-69 | the result and new table are those of add_user, and every entry stays keyed and writable |
| Storage.Storage.Auth | p1/server/storage.h:106-112 | the result is that of auth on the current table |
| Storage.Storage.SetUserData | p1/server/storage.h:71-81 | the result and new table are those of set_user_data |
| Storage.Storage.GetUserData | p1/server/storage.h:83-94 | the result is that of get_user_data on the current table |
| Storage.Storage.GetAllUsers | p1/server/storage.h:96-104 | ERR_LOGIN unless the caller authenticates; otherwise every registered name once, each followed by a newline, and the lines are the names |
| Storage.Storage.SaveFile | p1/server/storage.h:114-121 | the bytes written are the records of every entry, and loading them back gives the same table |
| Storage.Storage.HandleSav | p1/server/responses.h:76-86 | SAV replies ___OK___ and writes the records of every entry exactly when the caller authenticates, any registered user included; otherwise ERR_LOGIN and nothing is written |
| Storage.Storage.HandleBye | p1/server/responses.h:64-74 | BYE stops the server exactly when the caller authenticates; otherwise ERR_LOGIN |
| Client.Atoi | p1/client/client.cc:51-53 | atoi is negative only after a leading minus sign, and is 0 when the text after white space starts with neither a sign nor a digit |
| Client.AtoiDigits | p1/client/client.cc:51-53 | atoi of a string of digits is the number they denote |
| Client.AtoiDecimal | p1/client/client.cc:51-53 | a port written in decimal is read back as that number |
| Client.AtoiNegativeDecimal | p1/client/client.cc:51-53 | a number written in decimal after a minus sign is read back negated |
| Client.AtoiNoDigits | p1/client/client.cc:51-53 | a port argument that does not start with a number reads as 0 |
| Client.Assign | p1/client/client.cc:50-78 | an option is recorded exactly when its letter is one of p, s, k, u, w, C, 1, 2; any other letter, -h included, is refused |
| Client.ApplyOpts | p1/client/client.cc:49-79 | the options are recorded exactly when every option letter is one of p, s, k, u, w, C, 1, 2 |
| Client.LastValue | p1/client/client.cc:49-74 | the value found is that of an option with the letter, and no later option has that letter; none exactly when no option has it |
| Client.UnknownOptionRejects | p1/client/client.cc:75-77 | an unknown option anywhere rejects the whole command line |
| Client.LastOccurrenceWins | p1/client/client.cc:49-74 | each string field holds the argument of the last option with its letter, or its starting value when there is none |
| Client.PortIsLastAtoi | p1/client/client.cc:51-53 | the port is atoi of the last -p argument, or 0 without one |
| Client.Lookup | p1/client/client.cc:90-110 | a table scan finds the command exactly when it is in the table |
| Client.ParseArgs | p1/client/client.cc:46-112 | the command line is accepted exactly when every option is known and the command has the arguments its table requires; the record is that of the options |
| Client.AcceptedIff | p1/client/client.cc:83-111 | BYE, SAV and REG are accepted exactly when -1 and -2 are empty; SET, GET and ALL exactly when -1 is non-empty and -2 empty; any other command never |
| Client.TagsDistinct | p1/client/client.cc:187-189 | different request functions send different tags |
| Client.Dispatch | p1/client/client.cc:186-193 | the request functions called are exactly those whose tag equals the command, at most one, each with the user, password and both arguments |
| Client.ClientMain | p1/client/client.cc:159-196 | a refused command line exits with 1 and sends nothing; an accepted one calls exactly one request function, the one for its command |
| Cleanup.ContextManager.constructor | p1/common/contextmanager.h:14-19 | a new manager is enabled and has not run its action |
| Cleanup.ContextManager.Disable | p1/common/contextmanager.h:27-29 | disable clears the flag and runs nothing |
| Cleanup.ContextManager.Exit | p1/common/contextmanager.h:21-25 | at scope exit the action runs once if the manager is enabled, and not at all otherwise |
| Cleanup.GuardedSetup | p1/common/net.cc:162-193 | set-up succeeds exactly when the resource was acquired and every step succeeded; the resource is released exactly once on a failed step, and never on success |
| Cleanup.DisableTwice | p1/common/contextmanager.h:21-29 | for any manager not yet exited, a second disable leaves the flag and run count as the first did, and the action then does not run at scope exit |

## Left out

- Locking and two-phase locking. The map is modelled as used by one thread at a time. The thread pool, `accept_client` and the rest of `p1/common/net.cc` deal with sockets and concurrency, so they are left out.
- Cryptography (`p1/common/crypto.cc`, `p1/common/my_crypto.cc`). These are calls into OpenSSL. The password hash is an uninterpreted function, and the salt is a parameter.
- File I/O (`p1/common/file.cc`). The file is a byte sequence passed in and returned. Writing to a temporary file and renaming it is modelled as one replacement.
- Storage.Storage.SaveFile: always succeeds, because write failures come from the file system, which is not modelled.
- The request handlers in `p1/server/responses.cc` and the client's request functions in `p1/client/requests.h` are bound to sockets and cipher contexts. They are not modelled, except for the authentication gating of SAV and BYE.
- `p1/server/server.cc`, the logging in `p1/common/err.cc`, and the factories in `p1/server/sequentialmap_factories.cc` and `p1/server/map_factories.h`. These are process wiring and construction only.
- The quota, top-key and key/value configuration parameters of `storage_factory`, and its administrator name. No behaviour depends on them in this phase.
- `arg_t::usage` prints help text, so it is left out. Its loops index `commands[6]` to `commands[13]`, while the table has only 6 entries.
- Client.ClientMain: does not fetch the key file or open the connection. These are network and file I/O.
- Client.Atoi: does not model the undefined behaviour of `atoi` when the number overflows an `int`.
- The header that defines the request tags is not part of this model. The tags are taken from the grading script's client wrappers (`REGISTER`, `EXIT____`, `PERSIST_`, `SETPFILE`, `GETPFILE`, `ALLUSERS`). Only their distinctness matters to the proofs.
- Storage.Storage.LoadFile: the message for a malformed file ("Invalid file: <file>") is not fixed by the source. On that path the table is left empty.
- AuthTable.AddUser: the source does not say what an empty user name does. The model refuses it with ERR_REQ_FMT, because the file format cannot store it.
- AuthTable.GetUserData: an unregistered `who` gives ERR_NO_DATA, as an empty content does. The source says only that "no data" is an error.
- AuthTable.SetUserData: the 1048576-byte limit is checked before authentication. The tests show the limit but not where it is enforced.
