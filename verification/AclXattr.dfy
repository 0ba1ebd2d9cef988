/** The extended-attribute form of an ACL: a 32-bit version followed by 8-byte
    entries, all fields little-endian. */
module AclXattr {
  import opened AclEntry
  import opened AclRing
  import opened AclOps
  import opened AclCheck
  import opened AclMode
  import opened Bytes

  const VERSION := 2
  const HEADER := 4
  const ENTRY := 8

  /** The low byte. */
  function ToByte(n: int): Byte {
    Pack(n % 256)
  }

  function Le16(n: int): (b: seq<Byte>)
    ensures |b| == 2
  {
    [ToByte(n), ToByte(n / 256)]
  }

  function Le32(n: int): (b: seq<Byte>)
    ensures |b| == 4
  {
    [ToByte(n), ToByte(n / 256), ToByte(n / 65536), ToByte(n / 16777216)]
  }

  function UnLe16(b: seq<Byte>): (n: int)
    requires |b| == 2
    ensures 0 <= n < 0x1_0000
  {
    FromByte(b[0]) + 256 * FromByte(b[1])
  }

  function UnLe32(b: seq<Byte>): (n: Id)
    requires |b| == 4
  {
    FromByte(b[0]) + 256 * FromByte(b[1]) + 65536 * FromByte(b[2]) + 16777216 * FromByte(b[3])
  }

  /** The low sixteen permission bits. */
  function PermBytes(p: Perm): (b: seq<Byte>)
    ensures |b| == 2
  {
    [(p & 0xFF) as bv8, ((p >> 8) & 0xFF) as bv8]
  }

  function UnPerm(b: seq<Byte>): (p: Perm)
    requires |b| == 2
  {
    (b[0] as bv32) | ((b[1] as bv32) << 8)
  }

  predicate Fits16(p: Perm) {
    p < 0x1_0000
  }

  lemma PermRoundTrip(p: Perm)
    ensures UnPerm(PermBytes(p)) == p <==> Fits16(p)
    ensures Fits16(UnPerm(PermBytes(p)))
  {
  }

  lemma PermBytesRoundTrip(b: seq<Byte>)
    requires |b| == 2
    ensures PermBytes(UnPerm(b)) == b
  {
  }

  lemma Le16RoundTrip(n: int)
    requires 0 <= n < 0x1_0000
    ensures UnLe16(Le16(n)) == n
  {
    hide Pack, FromByte;
    PackValue(n % 256);
    PackValue(n / 256 % 256);
  }

  lemma Le32RoundTrip(n: Id)
    ensures UnLe32(Le32(n)) == n
  {
    hide Pack, FromByte;
    FourBytes(n);
    PackValue(n % 256);
    PackValue(n / 256 % 256);
    PackValue(n / 65536 % 256);
    PackValue(n / 16777216 % 256);
  }

  lemma FourBytes(n: Id)
    ensures n == n % 256 + 256 * (n / 256 % 256) + 65536 * (n / 65536 % 256) + 16777216 * (n / 16777216 % 256)
  {
    var q := n / 256;
    var r := q / 256;
    assert n / 65536 == r && n / 16777216 == r / 256;
    assert n == n % 256 + 256 * q && q == q % 256 + 256 * r && r == r % 256 + 256 * (r / 256);
  }

  lemma LowByte(lo: int, hi: int)
    requires 0 <= lo < 256
    ensures (lo + 256 * hi) % 256 == lo && (lo + 256 * hi) / 256 == hi
  {
  }

  lemma UnLe16RoundTrip(b: seq<Byte>)
    requires |b| == 2
    ensures Le16(UnLe16(b)) == b
  {
    hide Pack, FromByte;
    LowByte(FromByte(b[0]), FromByte(b[1]));
    ValuePack(b[0]);
    ValuePack(b[1]);
  }

  lemma UnLe32RoundTrip(b: seq<Byte>)
    requires |b| == 4
    ensures Le32(UnLe32(b)) == b
  {
    hide Pack, FromByte;
    var b0, b1, b2, b3 := FromByte(b[0]), FromByte(b[1]), FromByte(b[2]), FromByte(b[3]);
    var n := UnLe32(b);
    LowByte(b0, b1 + 256 * (b2 + 256 * b3));
    LowByte(b1, b2 + 256 * b3);
    LowByte(b2, b3);
    assert n / 65536 == n / 256 / 256 && n / 16777216 == n / 256 / 256 / 256;
    ValuePack(b[0]);
    ValuePack(b[1]);
    ValuePack(b[2]);
    ValuePack(b[3]);
  }

  // ----- Encoding

  function EncodeEntry(e: Entry): (b: seq<Byte>)
    ensures |b| == ENTRY
  {
    Le16(e.tag) + PermBytes(e.perm) + Le32(if Named(e.tag) then e.id else UNDEFINED_ID)
  }

  function EncodeEntries(s: seq<Entry>): (b: seq<Byte>)
    ensures |b| == ENTRY * |s|
  {
    if s == [] then [] else EncodeEntries(s[..|s| - 1]) + EncodeEntry(s[|s| - 1])
  }

  function Encode(s: seq<Entry>): (b: seq<Byte>)
    ensures |b| == HEADER + ENTRY * |s|
  {
    Le32(VERSION) + EncodeEntries(s)
  }

  // ----- Decoding

  datatype Parsed = Bad | Good(entries: seq<Entry>)

  function DecodeEntry(b: seq<Byte>): (e: Entry)
    requires |b| == ENTRY
  {
    var tag := UnLe16(b[..2]);
    Entry(tag, if Named(tag) then UnLe32(b[4..]) else UNDEFINED_ID, UnPerm(b[2..4]))
  }

  /** The entries in file order; an unknown tag spoils the whole attribute. */
  function DecodeEntries(b: seq<Byte>, n: nat): (r: Parsed)
    requires |b| == ENTRY * n
    ensures r.Good? ==> |r.entries| == n
  {
    if n == 0 then Good([])
    else
      var m := ENTRY * (n - 1);
      var rest, e := DecodeEntries(b[..m], n - 1), DecodeEntry(b[m..]);
      if rest.Bad? || !KnownTag(e.tag) then Bad else Good(rest.entries + [e])
  }

  function Decode(b: seq<Byte>): (r: Parsed) {
    if |b| < HEADER || b[..HEADER] != Le32(VERSION) || (|b| - HEADER) % ENTRY != 0 then Bad
    else DecodeEntries(b[HEADER..], (|b| - HEADER) / ENTRY)
  }

  /** What decoding may return: the entries, sorted. */
  ghost predicate DecodesTo(b: seq<Byte>, s: seq<Entry>) {
    Decode(b).Good? && Sorted(s) && multiset(s) == multiset(Decode(b).entries)
  }

  // ----- Round trips

  lemma EntryRoundTrip(e: Entry)
    requires KnownTag(e.tag)
    ensures DecodeEntry(EncodeEntry(e)).tag == e.tag
    ensures DecodeEntry(EncodeEntry(e)).id == Normal(e).id
    ensures DecodeEntry(EncodeEntry(e)).perm == e.perm <==> Fits16(e.perm)
    ensures DecodeEntry(EncodeEntry(e)) == Normal(e) <==> Fits16(e.perm)
  {
    hide Le16, Le32, PermBytes, UnLe16, UnLe32, UnPerm, Fits16;
    var b := EncodeEntry(e);
    var id := if Named(e.tag) then e.id else UNDEFINED_ID;
    assert b[..2] == Le16(e.tag) && b[2..4] == PermBytes(e.perm) && b[4..] == Le32(id);
    Le16RoundTrip(e.tag);
    Le32RoundTrip(id);
    PermRoundTrip(e.perm);
  }

  predicate AllFit(s: seq<Entry>) {
    forall i :: 0 <= i < |s| ==> Fits16(s[i].perm)
  }

  lemma {:induction false} EntriesRoundTrip(s: seq<Entry>) returns (d: seq<Entry>)
    requires AllKnownTags(s)
    ensures DecodeEntries(EncodeEntries(s), |s|) == Good(d)
    ensures SameKeys(d, s)
    ensures SameAcl(d, s) <==> AllFit(s)
  {
    hide EncodeEntry, DecodeEntry, Fits16;
    if s == [] {
      d := [];
    } else {
      var t, e := s[..|s| - 1], s[|s| - 1];
      var d' := EntriesRoundTrip(t);
      EntryRoundTrip(e);
      var b, m := EncodeEntries(s), ENTRY * |t|;
      assert b[..m] == EncodeEntries(t) && b[m..] == EncodeEntry(e);
      d := d' + [DecodeEntry(EncodeEntry(e))];
      assert s == t + [e];
      ExtendSame(d', DecodeEntry(EncodeEntry(e)), t, e);
    }
  }

  /** Same tags and, for named entries, same qualifiers. */
  predicate SameKeys(s: seq<Entry>, t: seq<Entry>) {
    |s| == |t| && forall i :: 0 <= i < |s| ==> s[i].tag == t[i].tag && s[i].id == Normal(t[i]).id
  }

  lemma ExtendSame(d: seq<Entry>, f: Entry, t: seq<Entry>, e: Entry)
    requires SameKeys(d, t) && f.tag == e.tag && f.id == Normal(e).id
    requires SameAcl(d, t) <==> AllFit(t)
    requires f.perm == e.perm <==> Fits16(e.perm)
    ensures SameKeys(d + [f], t + [e])
    ensures SameAcl(d + [f], t + [e]) <==> AllFit(t + [e])
  {
    hide Fits16;
    var x, y := d + [f], t + [e];
    assert x[|d|] == f && y[|t|] == e;
    assert forall i :: 0 <= i < |d| ==> x[i] == d[i] && y[i] == t[i];
    if SameAcl(x, y) {
      forall i | 0 <= i < |d| ensures Normal(d[i]) == Normal(t[i]) {
        assert Normal(x[i]) == Normal(y[i]);
      }
      assert Normal(x[|d|]) == Normal(y[|d|]);
    }
    if AllFit(y) {
      forall i | 0 <= i < |t| ensures Fits16(t[i].perm) {
        assert Fits16(y[i].perm);
      }
      assert Fits16(y[|t|].perm);
    }
  }

  /** Decoding what encoding wrote gives the same ACL back, for every valid ACL
      whose permissions fit the sixteen bits of the attribute. */
  lemma XattrRoundTrip(s: seq<Entry>, d: seq<Entry>)
    requires Code(s) == 0
    requires DecodesTo(Encode(s), d)
    ensures SameAcl(d, s) <==> AllFit(s)
  {
    hide EncodeEntries, DecodeEntries, Code, ValidAcl, AllFit;
    AcceptsExactly(s);
    ValidListIff(s);
    var b := Encode(s);
    assert b[..HEADER] == Le32(VERSION) && b[HEADER..] == EncodeEntries(s);
    var p := EntriesRoundTrip(s);
    StrictKeys(s, p);
    SortedUnique(d, p);
  }

  lemma StrictKeys(s: seq<Entry>, p: seq<Entry>)
    requires Strict(s) && SameKeys(p, s)
    ensures Increasing(p)
  {
  }

  /** The qualifier field of every unnamed entry is all ones. */
  predicate CleanIds(b: seq<Byte>, n: nat)
    requires |b| == ENTRY * n
  {
    n == 0 ||
    var m := ENTRY * (n - 1);
    CleanIds(b[..m], n - 1) && (Named(DecodeEntry(b[m..]).tag) || b[m..][4..] == Le32(UNDEFINED_ID))
  }

  /** A byte string in the one form encoding produces. */
  predicate Canonical(b: seq<Byte>) {
    && Decode(b).Good?
    && Strict(Decode(b).entries)
    && CleanIds(b[HEADER..], (|b| - HEADER) / ENTRY)
  }

  lemma EntryBytesRoundTrip(b: seq<Byte>)
    requires |b| == ENTRY
    ensures Named(DecodeEntry(b).tag) || b[4..] == Le32(UNDEFINED_ID) ==> EncodeEntry(DecodeEntry(b)) == b
  {
    hide Le16, Le32, PermBytes, UnLe16, UnLe32, UnPerm;
    UnLe16RoundTrip(b[..2]);
    PermBytesRoundTrip(b[2..4]);
    UnLe32RoundTrip(b[4..]);
    assert b == b[..2] + b[2..4] + b[4..];
  }

  lemma {:induction false} EntriesBytesRoundTrip(b: seq<Byte>, n: nat)
    requires |b| == ENTRY * n && DecodeEntries(b, n).Good? && CleanIds(b, n)
    ensures EncodeEntries(DecodeEntries(b, n).entries) == b
  {
    hide EncodeEntry, DecodeEntry, Le32;
    if n > 0 {
      var m := ENTRY * (n - 1);
      var s, t := DecodeEntries(b, n).entries, DecodeEntries(b[..m], n - 1).entries;
      assert s[..n - 1] == t && s[n - 1] == DecodeEntry(b[m..]);
      EntriesBytesRoundTrip(b[..m], n - 1);
      EntryBytesRoundTrip(b[m..]);
      assert b == b[..m] + b[m..];
    }
  }

  /** Encoding what decoding read gives the bytes back. */
  lemma BytesRoundTrip(b: seq<Byte>, d: seq<Entry>)
    requires Canonical(b) && DecodesTo(b, d)
    ensures Encode(d) == b
  {
    hide EncodeEntries, DecodeEntries, Le32, CleanIds;
    EntriesBytesRoundTrip(b[HEADER..], (|b| - HEADER) / ENTRY);
    SortedUnique(d, Decode(b).entries);
    assert b == b[..HEADER] + b[HEADER..];
  }

  /** Encoding a valid ACL produces that form. */
  lemma {:induction false} EncodedClean(s: seq<Entry>)
    requires AllKnownTags(s)
    ensures CleanIds(EncodeEntries(s), |s|)
  {
    if s != [] {
      var t, e := s[..|s| - 1], s[|s| - 1];
      EncodedClean(t);
      EntryRoundTrip(e);
      var b, m := EncodeEntries(s), ENTRY * |t|;
      assert b[..m] == EncodeEntries(t) && b[m..] == EncodeEntry(e);
      assert EncodeEntry(e)[4..] == Le32(if Named(e.tag) then e.id else UNDEFINED_ID);
    }
  }

  lemma EncodedCanonical(s: seq<Entry>)
    requires Code(s) == 0
    ensures Canonical(Encode(s))
  {
    hide EncodeEntries, DecodeEntries, Code, ValidAcl, AllFit, CleanIds, Le32, SameAcl;
    AcceptsExactly(s);
    ValidListIff(s);
    var b := Encode(s);
    assert b[..HEADER] == Le32(VERSION) && b[HEADER..] == EncodeEntries(s);
    var p := EntriesRoundTrip(s);
    EncodedClean(s);
  }

  /** The size of an encoding tells whether the ACL is mode-equivalent. */
  lemma SizeTest(s: seq<Entry>)
    requires Code(s) == 0
    ensures |Encode(s)| > HEADER + 3 * ENTRY <==> Extended(s)
    ensures |Encode(s)| >= HEADER + 3 * ENTRY
  {
    UnextendedIsMinimal(s);
  }

  /** An attribute of a file as `getxattr` reports it: its bytes, its absence, or
      another error. */
  datatype Attribute = Present(bytes: seq<Byte>) | Absent | Unreadable

  /** `__acl_extended_file`, which asks for sizes only. */
  function ExtendedFile(access: Attribute, default: Attribute): int {
    var base := HEADER + 3 * ENTRY;
    if access.Unreadable? then -1
    else if access.Present? && |access.bytes| > base then 1
    else if default.Unreadable? then -1
    else if default.Present? && |default.bytes| >= base then 1
    else 0
  }

  /** What is stored for an ACL; none is stored for the empty default ACL. */
  ghost predicate Stores(a: Attribute, s: seq<Entry>) {
    if s == [] then a.Absent? else Code(s) == 0 && a == Present(Encode(s))
  }

  /** On attributes that hold valid ACLs the answer is that of decoding them: 1
      exactly when the access ACL is not mode-equivalent or there is a default
      ACL.  A file without an access attribute has the ACL of its mode. */
  lemma ExtendedFileMeans(access: Attribute, default: Attribute, s: seq<Entry>, d: seq<Entry>)
    requires Stores(access, s) && Stores(default, d)
    ensures ExtendedFile(access, default) == if Extended(s) || d != [] then 1 else 0
  {
    hide Encode, Code, Extended;
    if s != [] {
      SizeTest(s);
    } else {
      assert !Extended(s) by { NothingExtended(); }
    }
    if d != [] {
      SizeTest(d);
    }
  }

  lemma NothingExtended()
    ensures !Extended([])
  {
  }

  /** An unreadable attribute is an error unless the answer is known before it is
      looked at. */
  lemma ExtendedFileFails(access: Attribute, default: Attribute, s: seq<Entry>)
    requires access.Unreadable? || (Stores(access, s) && default.Unreadable?)
    ensures ExtendedFile(access, default) == if !access.Unreadable? && Extended(s) then 1 else -1
  {
    hide Encode, Code, Extended;
    if !access.Unreadable? && s != [] {
      SizeTest(s);
    }
    assert !Extended([]) by { NothingExtended(); }
  }

  // ----- On the ring

  method Store(buf: array<Byte>, off: nat, bytes: seq<Byte>)
    requires off + |bytes| <= buf.Length
    modifies buf
    ensures buf[..off + |bytes|] == old(buf[..off]) + bytes
  {
    for i := 0 to |bytes|
      invariant buf[..off] == old(buf[..off])
      invariant forall j :: 0 <= j < i ==> buf[off + j] == bytes[j]
    {
      buf[off + i] := bytes[i];
    }
  }

  lemma EncodeStep(s: seq<Entry>, i: nat)
    requires i < |s|
    ensures Le32(VERSION) + EncodeEntries(s[..i]) + EncodeEntry(s[i]) == Le32(VERSION) + EncodeEntries(s[..i + 1])
  {
    assert s[..i + 1][..i] == s[..i];
  }

  /** `__acl_to_xattr`. */
  method ToXattr(acl: AclObj) returns (buf: array<Byte>)
    requires acl.Valid()
    ensures fresh(buf) && buf[..] == Encode(acl.Entries)
  {
    hide Linked, Distinct, Holds, Le32, EncodeEntry, EncodeEntries;
    ghost var s := acl.Entries;
    buf := new Byte[HEADER + acl.used * ENTRY];
    Store(buf, 0, Le32(VERSION));
    assert EncodeEntries(s[..0]) == [];
    var i: nat := 0;
    var p := acl.First();
    while p != acl.head
      invariant i <= |s| && p == acl.At(i) && (p == acl.head <==> i == |s|)
      invariant buf[..HEADER + ENTRY * i] == Le32(VERSION) + EncodeEntries(s[..i])
      decreases |s| - i
    {
      var e := acl.Read(p, i);
      EncodeStep(s, i);
      Store(buf, HEADER + ENTRY * i, EncodeEntry(e));
      p := acl.Next(p, i);
      i := i + 1;
    }
    assert s[..i] == s && buf[..] == buf[..HEADER + ENTRY * i];
  }

  lemma {:induction false} BadSticks(b: seq<Byte>, j: nat, n: nat)
    requires j <= n && |b| == ENTRY * n && DecodeEntries(b[..ENTRY * j], j).Bad?
    ensures DecodeEntries(b, n).Bad?
    decreases n
  {
    if j == n {
      assert b[..ENTRY * j] == b;
    } else {
      assert b[..ENTRY * (n - 1)][..ENTRY * j] == b[..ENTRY * j];
      BadSticks(b[..ENTRY * (n - 1)], j, n - 1);
    }
  }

  /** `__acl_from_xattr`. */
  method FromXattr(b: seq<Byte>) returns (acl: AclObj?)
    ensures acl == null <==> Decode(b).Bad?
    ensures acl != null ==> acl.Valid() && fresh(acl.Repr)
    ensures acl != null ==> DecodesTo(b, acl.Entries)
  {
    hide Linked, Distinct, Holds, Le32, DecodeEntry, Sorted;
    if |b| < HEADER || b[..HEADER] != Le32(VERSION) || (|b| - HEADER) % ENTRY != 0 {
      return null;
    }
    var body, n := b[HEADER..], (|b| - HEADER) / ENTRY;
    var a := new AclObj(n);
    for i := 0 to n
      invariant a.Valid() && fresh(a.Repr)
      invariant DecodeEntries(body[..ENTRY * i], i) == Good(a.Entries)
    {
      var m := ENTRY * (i + 1);
      var e := DecodeEntry(body[ENTRY * i..m]);
      assert body[..m][..ENTRY * i] == body[..ENTRY * i] && body[..m][ENTRY * i..] == body[ENTRY * i..m];
      if !KnownTag(e.tag) {
        BadSticks(body, i + 1, n);
        return null;
      }
      var x := a.Append(e);
    }
    assert body[..ENTRY * n] == body;
    a.ReorderAll();
    acl := a;
  }
}
