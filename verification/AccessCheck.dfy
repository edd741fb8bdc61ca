/** Who may do what on an inode with an access-control list, by the access check
    algorithm of POSIX 1003.1e draft 17 (section 23.1.5), and what the two lists
    the operator socket writes (ori/operator_socket.py:654-773) mean under it. */
module AccessCheck {
  import opened Options
  import opened Bits
  import opened ModeBits
  import opened AclCodec
  import opened SearchGrant

  datatype Inode = Inode(owner: Word32, group: Word32)
  datatype Principal = Principal(uid: Word32, gids: set<Word32>)

  const SEARCH: nat := 1

  /** Every permission wanted is among those held. */
  predicate Grants(perm: nat, want: nat) {
    And(perm, want) == want
  }

  /** The group entries that apply to `who`. */
  predicate AppliesByGroup(inode: Inode, who: Principal, e: Entry) {
    (e.tag == GROUP_OBJ && inode.group in who.gids) || (e.tag == GROUP && e.id in who.gids)
  }

  predicate AppliesByName(who: Principal, e: Entry) {
    e.tag == USER && e.id == who.uid
  }

  ghost predicate Access(inode: Inode, es: seq<Entry>, who: Principal, want: nat) {
    if who.uid == inode.owner then
      exists e :: e in es && e.tag == USER_OBJ && Grants(e.perm, want)
    else if exists e :: e in es && AppliesByName(who, e) then
      exists e :: e in es && AppliesByName(who, e) && Grants(Effective(es, e), want)
    else if exists e :: e in es && AppliesByGroup(inode, who, e) then
      exists e :: e in es && AppliesByGroup(inode, who, e) && Grants(Effective(es, e), want)
    else
      exists e :: e in es && e.tag == OTHER && Grants(e.perm, want)
  }

  // ----- The grant -----

  /** Granting the operator search changes no answer anyone else gets. */
  lemma NobodyElseAffected(
    inode: Inode, before: seq<Entry>, operator: Word32, after: seq<Entry>, who: Principal, want: nat)
    requires Acceptable(before) && Granted(before, operator, after) && !Withheld(before, operator)
    requires who.uid != operator
    ensures Access(inode, after, who, want) <==> Access(inode, before, who, want)
  {
    hide Effective;
    GrantedMembers(before, operator, after);
    forall e | e in before && Others(operator).Picks(e)
      ensures e in after && Effective(after, e) == Effective(before, e)
    {
      AcceptableUnchanged(before, operator, after, e);
    }
    SameAnswer(inode, before, after, who, want);
  }

  /** The answer depends only on the entries that apply and what they grant. */
  lemma SameAnswer(inode: Inode, a: seq<Entry>, b: seq<Entry>, who: Principal, want: nat)
    requires Applicable(inode, who, a) == Applicable(inode, who, b)
    requires forall e :: e in Applicable(inode, who, a) ==> Effective(a, e) == Effective(b, e)
    ensures Access(inode, a, who, want) <==> Access(inode, b, who, want)
  {
    hide Effective;
    assert forall e :: e in Applicable(inode, who, a) ==> e in a && e in b;
    if who.uid == inode.owner {
    } else if exists e :: e in a && AppliesByName(who, e) {
    } else if exists e :: e in a && AppliesByGroup(inode, who, e) {
    }
  }

  /** The entries the check can consult for `who`. */
  function Applicable(inode: Inode, who: Principal, es: seq<Entry>): set<Entry> {
    set e | e in es && (e.tag == USER_OBJ || e.tag == OTHER || AppliesByName(who, e) || AppliesByGroup(inode, who, e))
  }

  lemma SearchIsLowBit(perm: nat)
    ensures Grants(perm, SEARCH) <==> perm % 2 == 1
  {
    AndZero(perm / 2);
  }

  /** What the operator can do afterwards: an operator who owns the directory is
      judged by the owner's entry, which the grant does not touch. */
  lemma OperatorAccess(
    inode: Inode, before: seq<Entry>, operator: Word32, after: seq<Entry>, gids: set<Word32>, want: nat)
    requires Granted(before, operator, after)
    ensures operator != inode.owner ==>
              (Access(inode, after, Principal(operator, gids), want) <==>
               Grants(WithLowBit(And(OperatorPerm(before, operator), StartingMask(before).value.perm)), want))
    ensures operator == inode.owner ==>
              (Access(inode, after, Principal(operator, gids), want) <==>
               Access(inode, before, Principal(operator, gids), want))
  {
    GrantedMembers(before, operator, after);
    OperatorGainsSearch(before, operator, after);
    var who := Principal(operator, gids);
    var mine := Entry(USER, WithLowBit(OperatorPerm(before, operator)), operator);
    assert mine in after && AppliesByName(who, mine);
  }

  /** A successful grant gives the operator search, except on a directory the
      operator owns and has denied itself. */
  lemma GrantReachesOperator(
    inode: Inode, before: seq<Entry>, operator: Word32, after: seq<Entry>, gids: set<Word32>)
    requires Granted(before, operator, after)
    ensures Access(inode, after, Principal(operator, gids), SEARCH) <==>
            operator != inode.owner || Access(inode, before, Principal(operator, gids), SEARCH)
  {
    OperatorAccess(inode, before, operator, after, gids, SEARCH);
    SearchIsLowBit(WithLowBit(And(OperatorPerm(before, operator), StartingMask(before).value.perm)));
  }

  /** What decides for someone who neither owns the inode nor has an entry by name: the
      group entries that apply, or without any the entry for others. */
  ghost predicate FallsTo(inode: Inode, es: seq<Entry>, who: Principal, e: Entry) {
    e in es &&
    if exists g :: g in es && AppliesByGroup(inode, who, g) then AppliesByGroup(inode, who, e) else e.tag == OTHER
  }

  /** Every answer the operator got, it gets still. */
  ghost predicate LosesNothing(inode: Inode, before: seq<Entry>, after: seq<Entry>, who: Principal) {
    forall want :: Access(inode, before, who, want) ==> Access(inode, after, who, want)
  }

  /** The list has at most one entry for the operator, as the standard requires. */
  ghost predicate NamedOnce(es: seq<Entry>, operator: Word32) {
    forall e, f :: e in es && f in es && OperatorIs(operator).Picks(e) && OperatorIs(operator).Picks(f) ==> e == f
  }

  /** The grant takes nothing from the operator exactly when the operator owns the
      directory, has an entry already, or was given no more than search by its groups, or
      else by the entry for others. */
  lemma OperatorLosesNothing(
    inode: Inode, before: seq<Entry>, operator: Word32, after: seq<Entry>, gids: set<Word32>)
    requires Acceptable(before) && NamedOnce(before, operator) && Granted(before, operator, after)
    ensures LosesNothing(inode, before, after, Principal(operator, gids))
            <==> || operator == inode.owner
                 || First(before, OperatorIs(operator)).Some?
                 || forall e :: FallsTo(inode, before, Principal(operator, gids), e) ==> Effective(before, e) < 2
  {
    hide *;
    var who := Principal(operator, gids);
    if operator == inode.owner || First(before, OperatorIs(operator)).Some? {
      KnownKeeps(inode, before, operator, after, gids);
    } else {
      forall want
        ensures Access(inode, after, who, want) <==> want < 2
        ensures Access(inode, before, who, want) <==>
                exists e :: FallsTo(inode, before, who, e) && Grants(Effective(before, e), want)
      {
        StrangerAfter(inode, before, operator, after, gids, want);
        FallbackAccess(inode, before, operator, gids, want);
      }
      FallbackKeeps(inode, before, after, who);
    }
  }

  lemma KnownKeeps(inode: Inode, before: seq<Entry>, operator: Word32, after: seq<Entry>, gids: set<Word32>)
    requires Acceptable(before) && NamedOnce(before, operator) && Granted(before, operator, after)
    requires operator == inode.owner || First(before, OperatorIs(operator)).Some?
    ensures LosesNothing(inode, before, after, Principal(operator, gids))
  {
    hide Access, Acceptable, Granted, First, NamedOnce, Grants;
    forall want | Access(inode, before, Principal(operator, gids), want)
      ensures Access(inode, after, Principal(operator, gids), want)
    {
      OperatorAccess(inode, before, operator, after, gids, want);
      if operator != inode.owner {
        NamedKeeps(inode, before, operator, gids, want);
      }
    }
  }

  lemma StrangerAfter(
    inode: Inode, before: seq<Entry>, operator: Word32, after: seq<Entry>, gids: set<Word32>, want: nat)
    requires Granted(before, operator, after) && operator != inode.owner
    requires First(before, OperatorIs(operator)).None?
    ensures Access(inode, after, Principal(operator, gids), want) <==> want < 2
  {
    hide Access;
    OperatorAccess(inode, before, operator, after, gids, want);
    AndZero(StartingMask(before).value.perm);
    AndOne(want);
  }

  lemma NamedKeeps(inode: Inode, before: seq<Entry>, operator: Word32, gids: set<Word32>, want: nat)
    requires Acceptable(before) && operator != inode.owner && First(before, OperatorIs(operator)).Some?
    requires NamedOnce(before, operator)
    requires Access(inode, before, Principal(operator, gids), want)
    ensures Grants(WithLowBit(And(OperatorPerm(before, operator), StartingMask(before).value.perm)), want)
  {
    var own := First(before, OperatorIs(operator)).value;
    assert AppliesByName(Principal(operator, gids), own);
    assert Grants(Effective(before, own), want);
    AndCovered(And(OperatorPerm(before, operator), StartingMask(before).value.perm), want);
  }

  lemma FallbackAccess(inode: Inode, before: seq<Entry>, operator: Word32, gids: set<Word32>, want: nat)
    requires operator != inode.owner && First(before, OperatorIs(operator)).None?
    ensures var who := Principal(operator, gids);
            Access(inode, before, who, want)
            <==> exists e :: FallsTo(inode, before, who, e) && Grants(Effective(before, e), want)
  {
    var who := Principal(operator, gids);
    assert forall e :: e in before ==> !AppliesByName(who, e);
    if exists g :: g in before && AppliesByGroup(inode, who, g) {
      assert Access(inode, before, who, want) ==>
          exists e :: FallsTo(inode, before, who, e) && Grants(Effective(before, e), want) by {
        if Access(inode, before, who, want) {
          var e :| e in before && AppliesByGroup(inode, who, e) && Grants(Effective(before, e), want);
          assert FallsTo(inode, before, who, e);
        }
      }
    } else {
      assert forall e: Entry :: e.tag == OTHER ==> Effective(before, e) == e.perm;
      if Access(inode, before, who, want) {
        var e :| e in before && e.tag == OTHER && Grants(e.perm, want);
        assert FallsTo(inode, before, who, e);
      }
    }
  }

  lemma FallbackKeeps(inode: Inode, before: seq<Entry>, after: seq<Entry>, who: Principal)
    requires forall want :: Access(inode, after, who, want) <==> want < 2
    requires forall want :: Access(inode, before, who, want) <==>
               exists e :: FallsTo(inode, before, who, e) && Grants(Effective(before, e), want)
    ensures LosesNothing(inode, before, after, who)
            <==> forall e :: FallsTo(inode, before, who, e) ==> Effective(before, e) < 2
  {
    hide Access, FallsTo, Effective;
    if LosesNothing(inode, before, after, who) {
      forall e | FallsTo(inode, before, who, e) ensures Effective(before, e) < 2 {
        AndSelf(Effective(before, e));
        assert Access(inode, before, who, Effective(before, e));
      }
    }
    if forall e :: FallsTo(inode, before, who, e) ==> Effective(before, e) < 2 {
      forall want | Access(inode, before, who, want) ensures Access(inode, after, who, want) {
        var e :| FallsTo(inode, before, who, e) && Grants(Effective(before, e), want);
        SmallGrants(Effective(before, e), want);
      }
    }
  }

  lemma SmallGrants(perm: nat, want: nat)
    requires perm < 2 && Grants(perm, want)
    ensures want < 2
  {
    AndOne(want);
    AndZero(want);
  }

  // ----- Inputs on which the two fall short -----

  const READ: nat := 4

  /** The owner of a directory of mode 0644, made operator, still cannot search it. */
  lemma OwnerStaysOut(owner: Word32, group: Word32, after: seq<Entry>, gids: set<Word32>)
    requires Granted(FromMode(420), owner, after)
    ensures !Withheld(FromMode(420), owner)
    ensures !Access(Inode(owner, group), after, Principal(owner, gids), SEARCH)
  {
    var es := FromMode(420);
    assert es[0] == Entry(USER_OBJ, 6, UNDEFINED_ID);
    SearchIsLowBit(6);
    GrantReachesOperator(Inode(owner, group), es, owner, after, gids);
  }

  /** An operator who read a directory of mode 0744 as one of the others reads it no longer. */
  lemma OtherLosesRead(inode: Inode, operator: Word32, after: seq<Entry>)
    requires operator != inode.owner && Granted(FromMode(484), operator, after)
    ensures !Withheld(FromMode(484), operator)
    ensures Access(inode, FromMode(484), Principal(operator, {}), READ)
    ensures !Access(inode, after, Principal(operator, {}), READ)
  {
    var es := FromMode(484);
    assert es[2] == Entry(OTHER, 4, UNDEFINED_ID) && es[2] in es;
    AndSelf(READ);
    assert First(es, OperatorIs(operator)).None?;
    StrangerAfter(inode, es, operator, after, {}, READ);
  }

  // ----- The exact list -----

  function ExactEntries(ownerPerm: Word16, operator: Word32, operatorPerm: Word16): seq<Entry> {
    [Entry(USER_OBJ, ownerPerm, UNDEFINED_ID),
     Entry(USER, operatorPerm, operator),
     Entry(GROUP_OBJ, 0, UNDEFINED_ID),
     Entry(MASK, operatorPerm, UNDEFINED_ID),
     Entry(OTHER, 0, UNDEFINED_ID)]
  }

  function ExactAcl(ownerPerm: Word16, operator: Word32, operatorPerm: Word16): seq<Byte> {
    Encode(ExactEntries(ownerPerm, operator, operatorPerm))
  }

  /** The shape of an exact list: owner, operator, no group, the operator's mask, no other. */
  predicate ExactShape(five: seq<Entry>) {
    && |five| == 5
    && five[0].tag == USER_OBJ && five[1].tag == USER && five[2].tag == GROUP_OBJ
    && five[3].tag == MASK && five[4].tag == OTHER
    && five[1].perm == five[3].perm && five[2].perm == 0 && five[4].perm == 0
  }

  lemma EncodedAdmits(inode: Inode, five: seq<Entry>, who: Principal, want: nat)
    requires ExactShape(five)
    ensures Decode(Encode(five)).Ok?
    ensures Access(inode, Decode(Encode(five)).value, who, want) <==>
            if who.uid == inode.owner then Grants(five[0].perm, want)
            else if who.uid == five[1].id then Grants(five[1].perm, want)
            else want == 0
  {
    hide Access, Sorted;
    DecodeEncode(five);
    var kept := Sorted(five);
    SameMembers(five, kept);
    assert forall e :: e in five && e.tag == MASK ==> e == five[3];
    OnlyMask(kept, five[3]);
    FiveEntriesAdmit(inode, kept, five, who, want);
  }

  lemma OnlyMask(es: seq<Entry>, mask: Entry)
    requires mask in es && mask.tag == MASK && forall e :: e in es && e.tag == MASK ==> e == mask
    ensures First(es, Masks) == Some(mask)
  {
    assert Masks.Picks(mask);
  }

  lemma FiveEntriesAdmit(inode: Inode, es: seq<Entry>, five: seq<Entry>, who: Principal, want: nat)
    requires ExactShape(five) && First(es, Masks) == Some(five[3])
    requires forall e :: e in es <==> e in five
    ensures Access(inode, es, who, want) <==>
            if who.uid == inode.owner then Grants(five[0].perm, want)
            else if who.uid == five[1].id then Grants(five[1].perm, want)
            else want == 0
  {
    AndSelf(five[1].perm);
    AndZero(five[3].perm);
    AndZero(want);
    assert Effective(es, five[1]) == five[1].perm && Effective(es, five[2]) == 0;
    assert five == [five[0], five[1], five[2], five[3], five[4]];
    assert five[0] in es && five[1] in es && five[2] in es && five[4] in es;
    if who.uid != inode.owner {
      if who.uid == five[1].id {
        assert AppliesByName(who, five[1]);
      } else if inode.group in who.gids {
        assert AppliesByGroup(inode, who, five[2]);
      }
    }
  }

  /** The socket and its directory admit the owner and the operator, and no one
      else, to anything. */
  lemma ExactAclAdmits(
    inode: Inode, ownerPerm: Word16, operator: Word32, operatorPerm: Word16, who: Principal, want: nat)
    ensures Decode(ExactAcl(ownerPerm, operator, operatorPerm)).Ok?
    ensures Access(inode, Decode(ExactAcl(ownerPerm, operator, operatorPerm)).value, who, want) <==>
            if who.uid == inode.owner then Grants(ownerPerm, want)
            else if who.uid == operator then Grants(operatorPerm, want)
            else want == 0
  {
    hide Access, Encode, Decode;
    EncodedAdmits(inode, ExactEntries(ownerPerm, operator, operatorPerm), who, want);
  }

  lemma SameMembers(a: seq<Entry>, b: seq<Entry>)
    requires multiset(a) == multiset(b)
    ensures forall e :: e in a <==> e in b
  {
    forall e ensures e in a <==> e in b {
      assert e in a <==> e in multiset(a);
      assert e in b <==> e in multiset(b);
    }
  }

  // ----- Mode bits -----

  /** The one class of a mode that decides for `who`. */
  function ClassOf(inode: Inode, who: Principal): Class {
    if who.uid == inode.owner then Owner else if inode.group in who.gids then Group else Other
  }

  /** The list a mode stands for spells the mode. */
  lemma FromModeSpells(mode: nat)
    ensures var es := FromMode(mode);
            && |es| == 3 && es[0].tag == USER_OBJ && es[1].tag == GROUP_OBJ && es[2].tag == OTHER
            && es[0].perm < 8 && es[1].perm < 8 && es[2].perm < 8
            && 64 * es[0].perm + 8 * es[1].perm + es[2].perm == mode % 512
  {
    var a, b := mode / 8, mode / 64;
    assert mode == 8 * a + mode % 8 && a == 8 * b + a % 8 && b == a / 8;
    assert mode == 512 * (b / 8) + 64 * (b % 8) + 8 * (a % 8) + mode % 8;
  }

  /** And under the access check it admits exactly whom the mode's nine bits admit, to
      exactly what. */
  lemma FromModeAdmits(mode: nat, inode: Inode, who: Principal, want: nat)
    ensures Access(inode, FromMode(mode), who, want) <==> Allows(mode, ClassOf(inode, who), want)
  {
    var es := FromMode(mode);
    assert es[0] in es && es[1] in es && es[2] in es;
    assert First(es[3..], Masks).None? && First(es, Masks).None?;
    DigitAllows(mode, ClassOf(inode, who), want);
    hide And, Allows, First;
  }

  lemma FromModeAcceptable(mode: nat)
    ensures Acceptable(FromMode(mode))
  {
    var es := FromMode(mode);
    assert OwningGroup.Picks(es[1]) && es[1] in es;
  }

  /** What is written on a directory that had no list admits everyone but the operator to
      what the mode admitted them, and the operator to search unless the operator owns it. */
  lemma WrittenOnMode(
    inode: Inode, mode: nat, operator: Word32, raw: seq<Byte>, who: Principal, want: nat)
    requires ListOf(Absent, mode).Ok? && Decode(raw).Ok? && !Withheld(ListOf(Absent, mode).value, operator)
    requires Granted(ListOf(Absent, mode).value, operator, Decode(raw).value)
    ensures who.uid != operator ==>
              (Access(inode, Decode(raw).value, who, want) <==> Allows(mode, ClassOf(inode, who), want))
    ensures who.uid == operator && operator == inode.owner ==>
              (Access(inode, Decode(raw).value, who, want) <==> Allows(mode, Owner, want))
    ensures who.uid == operator && operator != inode.owner ==>
              (Access(inode, Decode(raw).value, who, want) <==> want < 2)
  {
    hide Access, Decode, Granted, Allows;
    var before, after := FromMode(mode), Decode(raw).value;
    FromModeAcceptable(mode);
    FromModeAdmits(mode, inode, who, want);
    assert who == Principal(who.uid, who.gids);
    if who.uid != operator {
      NobodyElseAffected(inode, before, operator, after, who, want);
    } else if operator == inode.owner {
      OperatorAccess(inode, before, operator, after, who.gids, want);
    } else {
      StrangerAfter(inode, before, operator, after, who.gids, want);
    }
  }

  /** And on a directory that had a list, everyone but the operator to what that list did. */
  lemma WrittenOnList(
    inode: Inode, mode: nat, list: seq<Byte>, operator: Word32, raw: seq<Byte>, who: Principal, want: nat)
    requires Decode(list).Ok? && Acceptable(Decode(list).value) && Decode(raw).Ok? && who.uid != operator
    requires ListOf(Bytes(list), mode).Ok? && !Withheld(ListOf(Bytes(list), mode).value, operator)
    requires Granted(ListOf(Bytes(list), mode).value, operator, Decode(raw).value)
    ensures Access(inode, Decode(raw).value, who, want) <==> Access(inode, Decode(list).value, who, want)
  {
    hide Access, Decode, Granted, Acceptable;
    NobodyElseAffected(inode, Decode(list).value, operator, Decode(raw).value, who, want);
  }

  function CanSearch(mode: nat, inode: Inode, who: Principal): bool {
    if inode.owner == who.uid then mode / 64 % 2 == 1
    else if inode.group in who.gids then mode / 8 % 2 == 1
    else mode % 2 == 1
  }

  /** On a directory with no list, the mode test is the access check for search. */
  lemma CanSearchIsAccess(mode: nat, inode: Inode, who: Principal)
    ensures CanSearch(mode, inode, who) <==> Access(inode, FromMode(mode), who, SEARCH)
  {
    var es := FromMode(mode);
    assert es[0] in es && es[1] in es && es[2] in es;
    SearchIsLowBit(es[0].perm);
    SearchIsLowBit(es[1].perm);
    SearchIsLowBit(es[2].perm);
    assert First(es[3..], Masks).None?;
    assert Effective(es, es[1]) == es[1].perm;
    LowBits(mode);
  }

  lemma LowBits(mode: nat)
    ensures mode / 64 % 8 % 2 == mode / 64 % 2 && mode / 8 % 8 % 2 == mode / 8 % 2 && mode % 8 % 2 == mode % 2
  {
    OctalParity(mode / 64);
    OctalParity(mode / 8);
    OctalParity(mode);
  }

  lemma OctalParity(n: nat)
    ensures n % 8 % 2 == n % 2
  {
  }
}
