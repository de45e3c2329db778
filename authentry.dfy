/** One record of the authentication table, and the byte strings it is made of. */
module AuthEntry {

  /** 2^64: every length the server handles is a `size_t`. */
  const U64: int := 0x1_0000_0000_0000_0000

  /** One byte, as the source's `uint8_t`. */
  newtype uint8 = b: int | 0 <= b < 0x100

  /** The contents of a `std::string` or `std::vector<uint8_t>`: bytes whose
      count fits in a `size_t`. */
  type Bytes = s: seq<uint8> | |s| < U64

  /** One user of the directory: the name, the random salt, the salted hash of
      the password, and the user's content (possibly empty). */
  datatype Entry = Entry(username: Bytes, salt: Bytes, passHash: Bytes, content: Bytes)

  /** The snapshot format can only represent an entry whose username, salt
      and hash are each at least one byte long. */
  predicate WellFormed(e: Entry)
  {
    |e.username| >= 1 && |e.salt| >= 1 && |e.passHash| >= 1
  }

  /** Every entry of `es` can be written to the snapshot file. */
  predicate AllWellFormed(es: seq<Entry>)
  {
    forall e :: e in es ==> WellFormed(e)
  }
}
