/** The phase-1 snapshot file of the authentication table.

    Each entry is one record:
      the 8-byte tag AUTHAUTH,
      four fields (username, salt, password hash, content), each an 8-byte
      length followed by that many bytes,
      zero bytes of padding up to the next multiple of 8.
    The file is the concatenation of the records, nothing more.  The source
    only says the lengths are a "binary write" of 8 bytes; this model fixes the
    byte order to little-endian. */
module Format {
  import opened AuthEntry
  import opened Padding
  import opened Wrappers

  /** The tag that starts every auth-table record. */
  const AUTHENTRY: seq<uint8> := [0x41, 0x55, 0x54, 0x48, 0x41, 0x55, 0x54, 0x48] // "AUTHAUTH"

  /** Width in bytes of every length prefix. */
  const LEN_WIDTH: nat := 8

  // ---------------------------------------------------------------------------
  // 8-byte little-endian lengths

  function Pow256(k: nat): (r: nat)
    ensures r >= 1
  {
    if k == 0 then 1 else 256 * Pow256(k - 1)
  }

  lemma Pow256Eight()
    ensures Pow256(8) == U64
  {
    calc {
      Pow256(8);
      256 * Pow256(7);
      256 * 256 * Pow256(6);
      256 * 256 * 256 * Pow256(5);
      256 * 256 * 256 * 256 * Pow256(4);
      256 * 256 * 256 * 256 * 256 * Pow256(3);
      256 * 256 * 256 * 256 * 256 * 256 * Pow256(2);
      256 * 256 * 256 * 256 * 256 * 256 * 256 * Pow256(1);
      256 * 256 * 256 * 256 * 256 * 256 * 256 * 256 * Pow256(0);
    }
  }

  /** `n` written as `k` little-endian bytes (the low bytes of `n`). */
  function LittleEndian(n: nat, k: nat): (r: seq<uint8>)
    ensures |r| == k
  {
    if k == 0 then [] else [(n % 256) as uint8] + LittleEndian(n / 256, k - 1)
  }

  /** The number that little-endian bytes `s` stand for. */
  function FromLittleEndian(s: seq<uint8>): (r: nat)
    ensures r < Pow256(|s|)
  {
    if s == [] then 0 else s[0] as nat + 256 * FromLittleEndian(s[1..])
  }

  /** Reading back `k` little-endian bytes gives the number written, when it fits. */
  lemma {:induction false} LittleEndianRoundTrip(n: nat, k: nat)
    requires n < Pow256(k)
    ensures FromLittleEndian(LittleEndian(n, k)) == n
  {
    if k > 0 {
      var s := LittleEndian(n, k);
      assert s[1..] == LittleEndian(n / 256, k - 1);
      assert n / 256 < Pow256(k - 1) by {
        DivBound(n, Pow256(k - 1));
      }
      LittleEndianRoundTrip(n / 256, k - 1);
      assert s[0] as nat == n % 256;
    }
  }

  lemma DivBound(n: nat, p: nat)
    requires n < 256 * p
    ensures n / 256 < p
  {
  }

  /** The 8-byte prefix that records the length of a field. */
  function LengthPrefix(n: nat): (r: seq<uint8>)
    requires n < U64
    ensures |r| == LEN_WIDTH
    ensures FromLittleEndian(r) == n
  {
    Pow256Eight();
    LittleEndianRoundTrip(n, 8);
    LittleEndian(n, 8)
  }

  // ---------------------------------------------------------------------------
  // Encoding

  /** A length-prefixed field; an empty field is its prefix alone. */
  function Field(b: Bytes): (r: seq<uint8>)
    ensures |r| == LEN_WIDTH + |b|
    ensures r[LEN_WIDTH..] == b
  {
    LengthPrefix(|b|) + b
  }

  /** Number of bytes of a record before its padding. */
  function UnpaddedLength(e: Entry): nat
  {
    8 + 8 + |e.username| + 8 + |e.salt| + 8 + |e.passHash| + 8 + |e.content|
  }

  function Zeros(n: nat): (r: seq<uint8>)
    ensures |r| == n
    ensures forall i :: 0 <= i < n ==> r[i] == 0
  {
    seq(n, _ => 0)
  }

  /** The record written for one entry. */
  function EncodeEntry(e: Entry): (r: seq<uint8>)
    ensures |r| == Next8(UnpaddedLength(e))
    ensures |r| % 8 == 0
    ensures r[..8] == AUTHENTRY
  {
    var body := AUTHENTRY + Field(e.username) + Field(e.salt) + Field(e.passHash) + Field(e.content);
    assert |body| == UnpaddedLength(e);
    var r := body + Zeros(PadLen(|body|));
    assert r[..8] == body[..8] == AUTHENTRY;
    r
  }

  /** The file written for a sequence of entries. */
  function Encode(es: seq<Entry>): (r: seq<uint8>)
    ensures r == [] <==> es == []
  {
    if es == [] then [] else EncodeEntry(es[0]) + Encode(es[1..])
  }

  /** The size the file of `es` must have: the sum of the padded record sizes. */
  function FileSize(es: seq<Entry>): nat
  {
    if es == [] then 0 else Next8(UnpaddedLength(es[0])) + FileSize(es[1..])
  }

  // ---------------------------------------------------------------------------
  // Decoding

  /** Read one length-prefixed field from the front of `s`: the field's bytes
      and what follows it, or None when `s` is too short. */
  function ReadField(s: seq<uint8>): (r: Option<(Bytes, seq<uint8>)>)
    ensures r.Some? ==> LEN_WIDTH + |r.value.0| + |r.value.1| == |s|
    ensures r.Some? ==> s == LengthPrefix(|r.value.0|) + r.value.0 + r.value.1
  {
    if |s| < LEN_WIDTH then None
    else
      var n := FromLittleEndian(s[..LEN_WIDTH]);
      Pow256Eight();
      if n > |s| - LEN_WIDTH then None
      else
        LittleEndianInjective(s[..LEN_WIDTH], LengthPrefix(n));
        assert s == s[..LEN_WIDTH] + s[LEN_WIDTH..LEN_WIDTH + n] + s[LEN_WIDTH + n..];
        var field: Bytes := s[LEN_WIDTH..LEN_WIDTH + n];
        Some((field, s[LEN_WIDTH + n..]))
  }

  /** Two byte strings of equal length that stand for the same number are equal. */
  lemma {:induction false} LittleEndianInjective(a: seq<uint8>, b: seq<uint8>)
    requires |a| == |b| && FromLittleEndian(a) == FromLittleEndian(b)
    ensures a == b
  {
    if a != [] {
      var x, y := FromLittleEndian(a[1..]), FromLittleEndian(b[1..]);
      assert a[0] as nat + 256 * x == b[0] as nat + 256 * y;
      assert a[0] == b[0] && x == y by {
        LinearDigit(a[0] as nat, x, b[0] as nat, y);
      }
      LittleEndianInjective(a[1..], b[1..]);
      assert a == [a[0]] + a[1..];
      assert b == [b[0]] + b[1..];
    }
  }

  lemma LinearDigit(d1: nat, x: nat, d2: nat, y: nat)
    requires d1 < 256 && d2 < 256 && d1 + 256 * x == d2 + 256 * y
    ensures d1 == d2 && x == y
  {
  }

  /** Read one record from the front of `s`: the entry and what follows its
      padding, or None when `s` does not start with a well-formed record. */
  function DecodeEntry(s: seq<uint8>): (r: Option<(Entry, seq<uint8>)>)
    ensures r.Some? ==> WellFormed(r.value.0)
    ensures r.Some? ==> |r.value.1| + Next8(UnpaddedLength(r.value.0)) == |s|
  {
    if |s| < 8 || s[..8] != AUTHENTRY then None
    else
      match ReadField(s[8..])
      case None => None
      case Some((user, s1)) =>
        match ReadField(s1)
        case None => None
        case Some((salt, s2)) =>
          match ReadField(s2)
          case None => None
          case Some((hash, s3)) =>
            match ReadField(s3)
            case None => None
            case Some((content, s4)) =>
              var e := Entry(user, salt, hash, content);
              var pad := PadLen(UnpaddedLength(e));
              if |user| == 0 || |salt| == 0 || |hash| == 0 || |s4| < pad then None
              else Some((e, s4[pad..]))
  }

  /** Parse a whole file: None when any record is malformed. */
  function Decode(s: seq<uint8>): (r: Option<seq<Entry>>)
    ensures r.Some? ==> AllWellFormed(r.value)
    decreases |s|
  {
    if s == [] then Some([])
    else
      match DecodeEntry(s)
      case None => None
      case Some((e, rest)) =>
        match Decode(rest)
        case None => None
        case Some(es) => Some([e] + es)
  }

  // ---------------------------------------------------------------------------
  // Properties

  /** The file is exactly as long as the sum of its padded record sizes, and
      that length is a multiple of 8. */
  lemma {:induction false} EncodeSize(es: seq<Entry>)
    ensures |Encode(es)| == FileSize(es)
    ensures |Encode(es)| % 8 == 0
  {
    if es != [] {
      EncodeSize(es[1..]);
      var head := EncodeEntry(es[0]);
      assert Encode(es) == head + Encode(es[1..]);
      MultipleOf8Sum(|head|, |Encode(es[1..])|);
    }
  }

  lemma MultipleOf8Sum(a: nat, b: nat)
    requires a % 8 == 0 && b % 8 == 0
    ensures (a + b) % 8 == 0
  {
    assert a == 8 * (a / 8) && b == 8 * (b / 8);
    assert a + b == 8 * (a / 8 + b / 8);
  }

  /** Encoding distributes over concatenation: the file of `a + b` is the file
      of `a` followed by the file of `b`.  With EncodeSize, every record starts
      at an offset that is a multiple of 8. */
  lemma {:induction false} EncodeAppend(a: seq<Entry>, b: seq<Entry>)
    ensures Encode(a + b) == Encode(a) + Encode(b)
  {
    if a == [] {
      assert a + b == b;
    } else {
      var ab := a + b;
      assert ab[0] == a[0];
      assert ab[1..] == a[1..] + b;
      EncodeAppend(a[1..], b);
      calc {
        Encode(ab);
        EncodeEntry(a[0]) + Encode(a[1..] + b);
        EncodeEntry(a[0]) + (Encode(a[1..]) + Encode(b));
        (EncodeEntry(a[0]) + Encode(a[1..])) + Encode(b);
      }
    }
  }

  /** Reading a field back from its encoding gives the field and leaves what follows. */
  lemma FieldRoundTrip(b: Bytes, t: seq<uint8>)
    ensures ReadField(Field(b) + t) == Some((b, t))
  {
    var s := Field(b) + t;
    assert s[..LEN_WIDTH] == LengthPrefix(|b|);
    assert s[LEN_WIDTH..LEN_WIDTH + |b|] == b;
    assert s[LEN_WIDTH + |b|..] == t;
  }

  /** Reading a record back from its encoding gives the entry and leaves what follows. */
  lemma EntryRoundTrip(e: Entry, t: seq<uint8>)
    requires WellFormed(e)
    ensures DecodeEntry(EncodeEntry(e) + t) == Some((e, t))
  {
    var fu, fs, fh, fc := Field(e.username), Field(e.salt), Field(e.passHash), Field(e.content);
    var body := AUTHENTRY + fu + fs + fh + fc;
    var pad := Zeros(PadLen(|body|));
    var rest4 := pad + t;
    var rest3 := fc + rest4;
    var rest2 := fh + rest3;
    var rest1 := fs + rest2;
    var rest0 := fu + rest1;
    var s := EncodeEntry(e) + t;
    assert s == AUTHENTRY + rest0 by {
      assert s == body + pad + t;
      AppendAssoc5(AUTHENTRY, fu, fs, fh, fc, pad, t);
    }
    assert s[..8] == AUTHENTRY;
    assert s[8..] == rest0;
    FieldRoundTrip(e.username, rest1);
    FieldRoundTrip(e.salt, rest2);
    FieldRoundTrip(e.passHash, rest3);
    FieldRoundTrip(e.content, rest4);
    assert |body| == UnpaddedLength(e);
    assert rest4[|pad|..] == t;
  }

  lemma AppendAssoc5<T>(a: seq<T>, b: seq<T>, c: seq<T>, d: seq<T>, e: seq<T>, f: seq<T>, g: seq<T>)
    ensures a + b + c + d + e + f + g == a + (b + (c + (d + (e + (f + g)))))
  {
  }

  /** Loading a saved file gives back exactly the entries that were saved, in order. */
  lemma {:induction false} DecodeEncode(es: seq<Entry>)
    requires AllWellFormed(es)
    ensures Decode(Encode(es)) == Some(es)
  {
    if es != [] {
      var rest := Encode(es[1..]);
      EntryRoundTrip(es[0], rest);
      assert EncodeEntry(es[0]) != [];
      DecodeEncode(es[1..]);
      assert [es[0]] + es[1..] == es;
    }
  }

  /** A record whose username field is empty is rejected by the loader,
      whatever follows it. */
  lemma EmptyUsernameRejected(rest: seq<uint8>)
    ensures DecodeEntry(AUTHENTRY + Field([]) + rest) == None
  {
    var s := AUTHENTRY + Field([]) + rest;
    assert s[..8] == AUTHENTRY;
    assert s[8..] == Field([]) + rest;
    FieldRoundTrip([], rest);
    EmptyUserField(s);
  }

  /** A record whose first field reads as empty is rejected. */
  lemma EmptyUserField(s: seq<uint8>)
    requires |s| >= 8 && s[..8] == AUTHENTRY
    requires ReadField(s[8..]).Some? && ReadField(s[8..]).value.0 == []
    ensures DecodeEntry(s) == None
  {
  }

  /** The record of a user as the server configured by the grading scripts
      registers it (a 16-byte salt, a 32-byte hash, no content) is next8(8+8+|name|+8+16+8+32+8) bytes long. */
  lemma RegisteredRecordSize(e: Entry)
    requires |e.salt| == 16 && |e.passHash| == 32 && e.content == []
    ensures |EncodeEntry(e)| == Next8(8 + 8 + |e.username| + 8 + 16 + 8 + 32 + 8)
  {
    var r := EncodeEntry(e);
    RegisteredUnpadded(e);
    calc {
      |r|;
      Next8(UnpaddedLength(e));
      Next8(|e.username| + 88);
    }
  }

  /** Such a record has 88 bytes besides the user name before padding. */
  lemma RegisteredUnpadded(e: Entry)
    requires |e.salt| == 16 && |e.passHash| == 32 && e.content == []
    ensures Next8(UnpaddedLength(e)) == Next8(|e.username| + 88)
  {
  }
}
