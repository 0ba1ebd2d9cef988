/** ACLs and file mode bits: `acl_equiv_mode` and `acl_from_mode`. */
module AclMode {
  import opened AclEntry
  import opened AclRing
  import opened AclOps
  import opened AclCheck

  type Mode = bv32

  const S_IRWXU: Mode := 0x1C0
  const S_IRWXG: Mode := 0x38
  const S_IRWXO: Mode := 0x7

  function Or(a: Mode, b: Mode): Mode {
    a | b
  }

  function UserBits(p: Perm): Mode {
    (p & S_IRWXO) << 6
  }

  function GroupBits(p: Perm): Mode {
    (p & S_IRWXO) << 3
  }

  function OtherBits(p: Perm): Mode {
    p & S_IRWXO
  }

  /** Owner, group and other permissions as nine mode bits. */
  function Triple(u: Perm, g: Perm, o: Perm): Mode {
    UserBits(u) | GroupBits(g) | OtherBits(o)
  }

  function EntryBits(e: Entry): Mode {
    if e.tag == USER_OBJ then UserBits(e.perm)
    else if e.tag == GROUP_OBJ then GroupBits(e.perm)
    else if e.tag == OTHER then OtherBits(e.perm)
    else 0
  }

  /** The bits the loop of `acl_equiv_mode` collects. */
  function FoldBits(s: seq<Entry>): Mode {
    if s == [] then Triple(0, 0, 0) else Or(FoldBits(s[..|s| - 1]), EntryBits(s[|s| - 1]))
  }

  function WithGroupBits(mode: Mode, perm: Perm): Mode {
    (mode & (0xFFFF_FFFF ^ S_IRWXG)) | GroupBits(perm)
  }

  /** The mode `acl_equiv_mode` reports: the mask stands for the group class. */
  function ModeBits(s: seq<Entry>): Mode {
    if LastMask(s) >= 0 then WithGroupBits(FoldBits(s), s[LastMask(s)].perm) else FoldBits(s)
  }

  predicate Extended(s: seq<Entry>) {
    HasTag(s, USER) || HasTag(s, GROUP) || HasTag(s, MASK)
  }

  /** `acl_equiv_mode`. */
  method EquivMode(acl: AclObj) returns (r: int, mode: Mode)
    requires acl.Valid()
    ensures r == -1 <==> !AllKnownTags(acl.Entries)
    ensures r != -1 ==> r == if Extended(acl.Entries) then 1 else 0
    ensures r != -1 ==> mode == ModeBits(acl.Entries)
  {
    hide Linked, Distinct, Holds, Or, EntryBits, WithGroupBits, Triple, Strict, Known;
    ghost var s := acl.Entries;
    var i: nat, maskPerm: Perm, masked, notEquiv := 0, 0, false, false;
    mode := Triple(0, 0, 0);
    var p := acl.First();
    while p != acl.head
      invariant i <= |s| && p == acl.At(i) && (p == acl.head <==> i == |s|)
      invariant AllKnownTags(s[..i]) && mode == FoldBits(s[..i])
      invariant notEquiv == Extended(s[..i])
      invariant masked == (LastMask(s[..i]) >= 0)
      invariant masked ==> maskPerm == s[LastMask(s[..i])].perm
      decreases |s| - i
    {
      var e := acl.Read(p, i);
      assert s[..i + 1] == s[..i] + [e] && s[..i + 1][..i] == s[..i];
      Extend(s[..i], e);
      if !KnownTag(e.tag) {
        return -1, 0;
      }
      mode := Or(mode, EntryBits(e));
      if e.tag == MASK {
        masked, maskPerm := true, e.perm;
      }
      if e.tag == MASK || Named(e.tag) {
        notEquiv := true;
      }
      p := acl.Next(p, i);
      i := i + 1;
    }
    assert s[..i] == s;
    if masked {
      mode := WithGroupBits(mode, maskPerm);
    }
    r := if notEquiv then 1 else 0;
  }

  // ----- What the bits mean

  /** Permissions of the last entry with this tag, none if there is none. */
  function PermOf(s: seq<Entry>, tag: int): Perm {
    if s == [] then 0 else if s[|s| - 1].tag == tag then s[|s| - 1].perm else PermOf(s[..|s| - 1], tag)
  }

  lemma TripleUser(u: Perm, g: Perm, o: Perm)
    ensures Or(Triple(0, g, o), UserBits(u)) == Triple(u, g, o)
  {
  }

  lemma TripleGroupObj(u: Perm, g: Perm, o: Perm)
    ensures Or(Triple(u, 0, o), GroupBits(g)) == Triple(u, g, o)
  {
  }

  lemma TripleOther(u: Perm, g: Perm, o: Perm)
    ensures Or(Triple(u, g, 0), OtherBits(o)) == Triple(u, g, o)
  {
  }

  lemma TripleNone(u: Perm, g: Perm, o: Perm)
    ensures Or(Triple(u, g, o), 0) == Triple(u, g, o)
  {
  }

  lemma TripleGroup(u: Perm, g: Perm, o: Perm, m: Perm)
    ensures WithGroupBits(Triple(u, g, o), m) == Triple(u, m, o)
  {
  }

  lemma {:induction false} AbsentPerm(s: seq<Entry>, tag: int)
    requires !HasTag(s, tag)
    ensures PermOf(s, tag) == 0
  {
    if s != [] {
      assert s[|s| - 1].tag != tag;
      assert forall i :: 0 <= i < |s| - 1 ==> s[..|s| - 1][i] == s[i];
      AbsentPerm(s[..|s| - 1], tag);
    }
  }

  lemma {:induction false} FoldTriple(s: seq<Entry>)
    requires Single(s, USER_OBJ) && Single(s, GROUP_OBJ) && Single(s, OTHER)
    ensures FoldBits(s) == Triple(PermOf(s, USER_OBJ), PermOf(s, GROUP_OBJ), PermOf(s, OTHER))
  {
    hide Or, Triple, UserBits, GroupBits, OtherBits;
    if s != [] {
      var t, e := s[..|s| - 1], s[|s| - 1];
      FoldTriple(t);
      var u, g, o := PermOf(s, USER_OBJ), PermOf(s, GROUP_OBJ), PermOf(s, OTHER);
      if e.tag == USER_OBJ {
        AbsentPerm(t, USER_OBJ);
        TripleUser(u, g, o);
      } else if e.tag == GROUP_OBJ {
        AbsentPerm(t, GROUP_OBJ);
        TripleGroupObj(u, g, o);
      } else if e.tag == OTHER {
        AbsentPerm(t, OTHER);
        TripleOther(u, g, o);
      } else {
        TripleNone(u, g, o);
      }
    }
  }

  /** On a valid ACL the mode holds the owner's permissions, the mask's if
      there is one and else the owning group's, and the others'. */
  lemma ModeOfValid(s: seq<Entry>)
    requires ValidList(s)
    ensures ModeBits(s) == Triple(PermOf(s, USER_OBJ),
                                  if HasTag(s, MASK) then PermOf(s, MASK) else PermOf(s, GROUP_OBJ),
                                  PermOf(s, OTHER))
  {
    FoldTriple(s);
    MaskPerm(s);
    if LastMask(s) >= 0 {
      TripleGroup(PermOf(s, USER_OBJ), PermOf(s, GROUP_OBJ), PermOf(s, OTHER), PermOf(s, MASK));
    }
  }

  lemma {:induction false} MaskPerm(s: seq<Entry>)
    ensures LastMask(s) >= 0 <==> HasTag(s, MASK)
    ensures LastMask(s) >= 0 ==> s[LastMask(s)].perm == PermOf(s, MASK)
  {
    if s != [] && s[|s| - 1].tag != MASK {
      MaskPerm(s[..|s| - 1]);
      assert s == s[..|s| - 1] + [s[|s| - 1]];
      Extend(s[..|s| - 1], s[|s| - 1]);
    }
  }

  // ----- acl_from_mode

  function UserPart(mode: Mode): Perm {
    (mode & S_IRWXU) >> 6
  }

  function GroupPart(mode: Mode): Perm {
    (mode & S_IRWXG) >> 3
  }

  function OtherPart(mode: Mode): Perm {
    mode & S_IRWXO
  }

  /** The three-entry ACL. */
  function Minimal(u: Perm, g: Perm, o: Perm): (s: seq<Entry>) {
    [Entry(USER_OBJ, UNDEFINED_ID, u), Entry(GROUP_OBJ, UNDEFINED_ID, g), Entry(OTHER, UNDEFINED_ID, o)]
  }

  function FromMode(mode: Mode): (s: seq<Entry>) {
    Minimal(UserPart(mode), GroupPart(mode), OtherPart(mode))
  }

  /** `acl_from_mode`. */
  method AclFromMode(mode: Mode) returns (acl: AclObj)
    ensures acl.Valid() && fresh(acl.Repr)
    ensures acl.Entries == FromMode(mode)
  {
    hide Linked, Distinct, Holds, UserPart, GroupPart, OtherPart;
    acl := new AclObj(3);
    var e := acl.Append(Entry(USER_OBJ, UNDEFINED_ID, UserPart(mode)));
    e := acl.Append(Entry(GROUP_OBJ, UNDEFINED_ID, GroupPart(mode)));
    e := acl.Append(Entry(OTHER, UNDEFINED_ID, OtherPart(mode)));
  }

  lemma NineBits(mode: Mode)
    ensures Triple(UserPart(mode), GroupPart(mode), OtherPart(mode)) == mode & 0x1FF
  {
  }

  lemma TriplePartsU(u: Perm, g: Perm, o: Perm)
    ensures UserPart(Triple(u, g, o)) == Low(u)
  {
  }

  lemma TriplePartsG(u: Perm, g: Perm, o: Perm)
    ensures GroupPart(Triple(u, g, o)) == Low(g)
  {
  }

  lemma TriplePartsO(u: Perm, g: Perm, o: Perm)
    ensures OtherPart(Triple(u, g, o)) == Low(o)
  {
  }

  lemma MinimalValid(u: Perm, g: Perm, o: Perm)
    ensures ValidList(Minimal(u, g, o)) && Code(Minimal(u, g, o)) == 0 && !Extended(Minimal(u, g, o))
    ensures ModeBits(Minimal(u, g, o)) == Triple(u, g, o)
  {
    hide Triple, WithGroupBits, ValidAcl, Code;
    var s := Minimal(u, g, o);
    assert s[0].tag == USER_OBJ && s[1].tag == GROUP_OBJ && s[2].tag == OTHER;
    assert ValidList(s) && Strict(s);
    ValidListIff(s);
    AcceptsExactly(s);
    ModeOfValid(s);
    PermsOfThree(s);
  }

  lemma PermsOfThree(s: seq<Entry>)
    requires |s| == 3 && s[0].tag == USER_OBJ && s[1].tag == GROUP_OBJ && s[2].tag == OTHER
    ensures PermOf(s, USER_OBJ) == s[0].perm && PermOf(s, GROUP_OBJ) == s[1].perm && PermOf(s, OTHER) == s[2].perm
  {
    var t := s[..2];
    assert t[..1] == [s[0]];
    assert PermOf([s[0]], USER_OBJ) == s[0].perm;
    assert PermOf(t, GROUP_OBJ) == s[1].perm && PermOf(t, USER_OBJ) == s[0].perm;
  }

  /** Mode to ACL and back: a valid, unextended ACL with the same nine bits. */
  lemma ModeRoundTrip(mode: Mode)
    ensures Code(FromMode(mode)) == 0 && !Extended(FromMode(mode))
    ensures ModeBits(FromMode(mode)) == mode & 0x1FF
  {
    hide Code, Extended, ModeBits, Triple, Minimal, UserPart, GroupPart, OtherPart;
    MinimalValid(UserPart(mode), GroupPart(mode), OtherPart(mode));
    NineBits(mode);
  }

  /** A valid ACL without extended entries has exactly the three base entries. */
  lemma UnextendedIsMinimal(s: seq<Entry>)
    requires Code(s) == 0
    ensures |s| >= 3
    ensures Extended(s) <==> |s| > 3
    ensures !Extended(s) ==> SameAcl(s, Minimal(PermOf(s, USER_OBJ), PermOf(s, GROUP_OBJ), PermOf(s, OTHER)))
  {
    hide ValidAcl, Code;
    AcceptsExactly(s);
    ValidListIff(s);
    var u :| 0 <= u < |s| && s[u].tag == USER_OBJ;
    var g :| 0 <= g < |s| && s[g].tag == GROUP_OBJ;
    var o :| 0 <= o < |s| && s[o].tag == OTHER;
    assert u < g < o;
    if Extended(s) {
      var x :| 0 <= x < |s| && s[x].tag != USER_OBJ && s[x].tag != GROUP_OBJ && s[x].tag != OTHER;
      assert |s| > 3;
    } else {
      OnlyThree(s, u, g, o);
      PermsOfThree(s);
    }
  }

  lemma OnlyThree(s: seq<Entry>, u: nat, g: nat, o: nat)
    requires Known(s) && Strict(s) && !Extended(s)
    requires u < g < o < |s| && s[u].tag == USER_OBJ && s[g].tag == GROUP_OBJ && s[o].tag == OTHER
    ensures |s| == 3 && u == 0 && g == 1 && o == 2
  {
    OneOfThree(s, u, g, o, 0);
    OneOfThree(s, u, g, o, 1);
    OneOfThree(s, u, g, o, 2);
    OneOfThree(s, u, g, o, |s| - 1);
  }

  lemma OneOfThree(s: seq<Entry>, u: nat, g: nat, o: nat, i: nat)
    requires Known(s) && Strict(s) && !Extended(s) && i < |s|
    requires u < g < o < |s| && s[u].tag == USER_OBJ && s[g].tag == GROUP_OBJ && s[o].tag == OTHER
    ensures i == u || i == g || i == o
  {
    assert KnownTag(s[i].tag);
  }

  function Low(p: Perm): Perm {
    p & RWX
  }

  lemma SameMinimal(s: seq<Entry>, u: Perm, g: Perm, o: Perm, u': Perm, g': Perm, o': Perm)
    requires SameAcl(s, Minimal(u, g, o))
    ensures |s| == 3 && s[0].perm == u && s[1].perm == g && s[2].perm == o
    ensures SameAcl(Minimal(u', g', o'), s) <==> u == u' && g == g' && o == o'
  {
    var m, m' := Minimal(u, g, o), Minimal(u', g', o');
    assert Normal(s[0]) == Normal(m[0]) && Normal(s[1]) == Normal(m[1]) && Normal(s[2]) == Normal(m[2]);
    if SameAcl(m', s) {
      assert Normal(m'[0]) == Normal(s[0]) && Normal(m'[1]) == Normal(s[1]) && Normal(m'[2]) == Normal(s[2]);
    }
  }

  /** ACL to mode and back: nothing but the bits above rwx is lost. */
  lemma AclModeRoundTrip(s: seq<Entry>)
    requires Code(s) == 0 && !Extended(s)
    ensures SameAcl(FromMode(ModeBits(s)), s) <==> forall i :: 0 <= i < |s| ==> Low(s[i].perm) == s[i].perm
  {
    hide ModeBits, Code, Extended, Triple, UserPart, GroupPart, OtherPart, ValidAcl, Low, SameAcl;
    var u, g, o := PermOf(s, USER_OBJ), PermOf(s, GROUP_OBJ), PermOf(s, OTHER);
    UnextendedMode(s);
    UnextendedIsMinimal(s);
    TriplePartsU(u, g, o);
    TriplePartsG(u, g, o);
    TriplePartsO(u, g, o);
    SameMinimal(s, u, g, o, Low(u), Low(g), Low(o));
  }

  lemma UnextendedMode(s: seq<Entry>)
    requires Code(s) == 0 && !Extended(s)
    ensures ModeBits(s) == Triple(PermOf(s, USER_OBJ), PermOf(s, GROUP_OBJ), PermOf(s, OTHER))
  {
    hide ValidAcl, Code, Triple, ModeBits;
    AcceptsExactly(s);
    ValidListIff(s);
    ModeOfValid(s);
  }
}
