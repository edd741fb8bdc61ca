/** Granting the operator search on a directory (ori/operator_socket.py:654-773).

    A mask caps what the group class of an access-control list grants (POSIX
    1003.1e draft 17, section 23.1.5), so adding one entry can change what other
    entries mean.  The theorems here are about meanings, not entries.
  */
module SearchGrant {
  import opened Options
  import opened Bits
  import opened AclCodec

  // ----- Reading a list -----

  /** The entries the grant picks out. */
  datatype Selector =
    | Masks
    | OwningGroup
    | OperatorIs(id: Word32)
    | OperatorIsNot(id: Word32)
    | NotMasks
    | Others(id: Word32)
    | SearchableGroupClass
  {
    predicate Picks(e: Entry) {
      match this
      case Masks => e.tag == MASK
      case OwningGroup => e.tag == GROUP_OBJ
      case OperatorIs(id) => e.tag == USER && e.id == id
      case OperatorIsNot(id) => !(e.tag == USER && e.id == id)
      case NotMasks => e.tag != MASK
      case Others(id) => !(e.tag == USER && e.id == id) && e.tag != MASK
      case SearchableGroupClass => GroupClass(e) && e.perm % 2 == 1
    }
  }

  /** The entries a mask caps. */
  predicate GroupClass(e: Entry) {
    e.tag == GROUP_OBJ || e.tag == GROUP || e.tag == USER
  }

  function First(es: seq<Entry>, sel: Selector): (r: Option<Entry>)
    ensures r.Some? ==> r.value in es && sel.Picks(r.value)
    ensures r.None? ==> forall e :: e in es ==> !sel.Picks(e)
  {
    if es == [] then None
    else if sel.Picks(es[0]) then Some(es[0])
    else First(es[1..], sel)
  }

  function Keep(es: seq<Entry>, sel: Selector): (r: seq<Entry>)
    ensures forall e :: e in r <==> e in es && sel.Picks(e)
  {
    if es == [] then []
    else
      var rest := Keep(es[1..], sel);
      assert forall e :: e in es <==> e == es[0] || e in es[1..];
      if sel.Picks(es[0]) then [es[0]] + rest else rest
  }

  /** What an entry grants once the mask is applied. */
  function Effective(es: seq<Entry>, e: Entry): nat {
    if GroupClass(e) && First(es, Masks).Some? then And(e.perm, First(es, Masks).value.perm) else e.perm
  }

  // ----- The grant -----

  /** The mask the grant starts from: the list's own, or the owning group's entry. */
  function StartingMask(es: seq<Entry>): Option<Entry> {
    if First(es, Masks).Some? then First(es, Masks) else First(es, OwningGroup)
  }

  function OperatorPerm(es: seq<Entry>, operator: Word32): Word16 {
    var own := First(es, OperatorIs(operator));
    if own.Some? then own.value.perm else 0
  }

  /** Every other entry, the operator's with search added, and one mask with search. */
  ghost predicate Granted(before: seq<Entry>, operator: Word32, after: seq<Entry>) {
    && StartingMask(before).Some?
    && multiset(after)
       == multiset(Keep(before, Others(operator)))
          + multiset{Entry(USER, WithLowBit(OperatorPerm(before, operator)), operator)}
          + multiset{Entry(MASK, WithLowBit(StartingMask(before).value.perm), UNDEFINED_ID)}
  }

  /** Some other entry would gain the search that the mask now withholds from it. */
  ghost predicate Withheld(es: seq<Entry>, operator: Word32) {
    && StartingMask(es).Some?
    && StartingMask(es).value.perm % 2 == 0
    && exists e :: e in es && Others(operator).Picks(e) && SearchableGroupClass.Picks(e)
  }

  method GrantEntries(entries: seq<Entry>, operator: Word32) returns (r: Result<seq<Entry>>)
    ensures r == Err(NoOwningGroup) <==> StartingMask(entries).None?
    ensures r == Err(MaskWithholds) <==> Withheld(entries, operator)
    ensures r.Err? ==> r.error in {NoOwningGroup, MaskWithholds}
    ensures r.Ok? ==> Granted(entries, operator, r.value)
  {
    var kept := Keep(entries, OperatorIsNot(operator));
    var current := OperatorPerm(entries, operator);
    var found := First(entries, Masks);
    if found.None? {
      found := First(entries, OwningGroup);
      if found.None? {
        return Err(NoOwningGroup);
      }
    }
    var mask := found.value.perm;
    var widened := Keep(kept, SearchableGroupClass);
    assert forall e :: e in widened <==> e in entries && Others(operator).Picks(e) && SearchableGroupClass.Picks(e);
    if mask % 2 == 0 && widened != [] {
      assert widened[0] in widened;
      return Err(MaskWithholds);
    }
    kept := Keep(kept, NotMasks);
    KeepTwice(entries, operator);
    return Ok(kept + [Entry(USER, WithLowBit(current), operator)] + [Entry(MASK, WithLowBit(mask), UNDEFINED_ID)]);
  }

  lemma {:induction false} KeepTwice(es: seq<Entry>, operator: Word32)
    ensures Keep(Keep(es, OperatorIsNot(operator)), NotMasks) == Keep(es, Others(operator))
  {
    if es != [] {
      KeepTwice(es[1..], operator);
      var rest := Keep(es[1..], OperatorIsNot(operator));
      assert ([es[0]] + rest)[1..] == rest;
    }
  }

  // ----- What the attribute holds -----

  /** What reading the extended attribute gives. */
  datatype Attribute = Bytes(raw: seq<Byte>) | Absent | Unreadable

  /** The list a directory without the attribute has: its mode's three classes. */
  function FromMode(mode: nat): seq<Entry> {
    [Entry(USER_OBJ, mode / 64 % 8, UNDEFINED_ID),
     Entry(GROUP_OBJ, mode / 8 % 8, UNDEFINED_ID),
     Entry(OTHER, mode % 8, UNDEFINED_ID)]
  }

  function ListOf(attribute: Attribute, mode: nat): Result<seq<Entry>> {
    match attribute
    case Bytes(raw) => Decode(raw)
    case Absent => Ok(FromMode(mode))
    case Unreadable => Err(ReadFailed)
  }

  /** Whether the platform has access-control lists, and whether writing one succeeds. */
  datatype Platform = Platform(hasLists: bool, writes: bool)

  /** The bytes written back; read again they hold the granted list.  Every other way it
      can go is a refusal that names the first thing wrong. */
  method GrantSearch(platform: Platform, attribute: Attribute, mode: nat, operator: Word32)
    returns (r: Result<seq<Byte>>)
    ensures !platform.hasLists ==> r == Err(NoAccessLists)
    ensures platform.hasLists && ListOf(attribute, mode).Err? ==> r == Err(ListOf(attribute, mode).error)
    ensures platform.hasLists && ListOf(attribute, mode).Ok? ==>
              var before := ListOf(attribute, mode).value;
              && (r == Err(NoOwningGroup) <==> StartingMask(before).None?)
              && (r == Err(MaskWithholds) <==> Withheld(before, operator))
              && (StartingMask(before).Some? && !Withheld(before, operator) ==>
                    if platform.writes then r.Ok? else r == Err(WriteFailed))
              && (r.Ok? ==> Decode(r.value).Ok? && Granted(before, operator, Decode(r.value).value))
  {
    if !platform.hasLists {
      return Err(NoAccessLists);
    }
    var entries := ListOf(attribute, mode);
    if entries.Err? {
      return Err(entries.error);
    }
    var granted := GrantEntries(entries.value, operator);
    if granted.Err? {
      return Err(granted.error);
    }
    if !platform.writes {
      return Err(WriteFailed);
    }
    DecodeEncode(granted.value);
    return Ok(Encode(granted.value));
  }

  // ----- What a grant means -----

  lemma GrantedMembers(before: seq<Entry>, operator: Word32, after: seq<Entry>)
    requires Granted(before, operator, after)
    ensures forall e :: e in after <==>
              || (e in before && Others(operator).Picks(e))
              || e == Entry(USER, WithLowBit(OperatorPerm(before, operator)), operator)
              || e == Entry(MASK, WithLowBit(StartingMask(before).value.perm), UNDEFINED_ID)
  {
    forall e
      ensures e in after <==>
                || (e in before && Others(operator).Picks(e))
                || e == Entry(USER, WithLowBit(OperatorPerm(before, operator)), operator)
                || e == Entry(MASK, WithLowBit(StartingMask(before).value.perm), UNDEFINED_ID)
    {
      assert e in after <==> e in multiset(after);
      assert e in Keep(before, Others(operator)) <==> e in multiset(Keep(before, Others(operator)));
    }
  }

  /** Afterwards there is one mask, one entry for the operator, and both grant search. */
  lemma OneMaskOneOperator(before: seq<Entry>, operator: Word32, after: seq<Entry>)
    requires Granted(before, operator, after)
    ensures multiset(Keep(after, Masks))
            == multiset{Entry(MASK, WithLowBit(StartingMask(before).value.perm), UNDEFINED_ID)}
    ensures multiset(Keep(after, OperatorIs(operator)))
            == multiset{Entry(USER, WithLowBit(OperatorPerm(before, operator)), operator)}
    ensures multiset(Keep(after, Others(operator))) == multiset(Keep(before, Others(operator)))
  {
    var kept := Keep(before, Others(operator));
    var mine := Entry(USER, WithLowBit(OperatorPerm(before, operator)), operator);
    var widened := Entry(MASK, WithLowBit(StartingMask(before).value.perm), UNDEFINED_ID);
    assert forall e :: e in multiset(kept) ==> e in kept;
    ThreeParts(after, operator, multiset(kept), mine, widened);
  }

  lemma ThreeParts(es: seq<Entry>, operator: Word32, others: multiset<Entry>, mine: Entry, mask: Entry)
    requires multiset(es) == others + multiset{mine} + multiset{mask}
    requires forall e :: e in others ==> Others(operator).Picks(e)
    requires OperatorIs(operator).Picks(mine) && Masks.Picks(mask)
    ensures multiset(Keep(es, Others(operator))) == others
    ensures multiset(Keep(es, OperatorIs(operator))) == multiset{mine}
    ensures multiset(Keep(es, Masks)) == multiset{mask}
  {
    OnePart(es, Others(operator), others, multiset{mine} + multiset{mask});
    OnePart(es, OperatorIs(operator), multiset{mine}, others + multiset{mask});
    OnePart(es, Masks, multiset{mask}, others + multiset{mine});
  }

  lemma OnePart(es: seq<Entry>, sel: Selector, picked: multiset<Entry>, passed: multiset<Entry>)
    requires forall e :: multiset(es)[e] == picked[e] + passed[e]
    requires forall e :: e in picked ==> sel.Picks(e)
    requires forall e :: e in passed ==> !sel.Picks(e)
    ensures multiset(Keep(es, sel)) == picked
  {
    KeepCounts(es, sel);
    var kept := multiset(Keep(es, sel));
    forall e ensures kept[e] == picked[e] {
      assert multiset(es)[e] == picked[e] + passed[e];
      if sel.Picks(e) {
        assert passed[e] == 0;
      } else {
        assert picked[e] == 0;
      }
    }
  }

  lemma {:induction false} KeepCounts(es: seq<Entry>, sel: Selector)
    ensures forall e :: multiset(Keep(es, sel))[e] == if sel.Picks(e) then multiset(es)[e] else 0
  {
    if es != [] {
      KeepCounts(es[1..], sel);
      assert es == [es[0]] + es[1..];
    }
  }

  lemma MaskAfter(before: seq<Entry>, operator: Word32, after: seq<Entry>)
    requires Granted(before, operator, after)
    ensures First(after, Masks) == Some(Entry(MASK, WithLowBit(StartingMask(before).value.perm), UNDEFINED_ID))
  {
    GrantedMembers(before, operator, after);
    var widened := Entry(MASK, WithLowBit(StartingMask(before).value.perm), UNDEFINED_ID);
    assert widened in after && Masks.Picks(widened);
  }

  /** Every permission of `a` is one of `b`. */
  predicate Within(a: nat, b: nat) {
    And(a, b) == a
  }

  /** No group-class entry but the operator's holds a permission the owning group, given
      search, does not. */
  ghost predicate Uncapped(es: seq<Entry>, operator: Word32) {
    && First(es, OwningGroup).Some?
    && forall e :: e in es && Others(operator).Picks(e) && GroupClass(e) ==>
         Within(e.perm, WithLowBit(First(es, OwningGroup).value.perm))
  }

  /** No other entry's meaning changes, exactly when the list had a mask, or every other
      group-class permission lies within the owning group's with search. */
  lemma OthersUnchanged(before: seq<Entry>, operator: Word32, after: seq<Entry>)
    requires Granted(before, operator, after) && !Withheld(before, operator)
    ensures (forall e :: e in before && Others(operator).Picks(e) ==> Effective(after, e) == Effective(before, e))
            <==> First(before, Masks).Some? || Uncapped(before, operator)
  {
    MaskAfter(before, operator, after);
    var mask := StartingMask(before).value.perm;
    if First(before, Masks).Some? {
      forall e | e in before && Others(operator).Picks(e) && GroupClass(e)
        ensures Effective(after, e) == Effective(before, e)
      {
        AndLowBit(e.perm, mask);
      }
    }
  }

  /** A list with no mask, whose owning group has nothing and a named group write: the mask
      the grant adds takes write from the named group. */
  lemma NamedGroupCapped(operator: Word32, group: Word32, after: seq<Entry>)
    requires Granted([Entry(GROUP_OBJ, 0, UNDEFINED_ID), Entry(GROUP, 2, group)], operator, after)
    ensures var before := [Entry(GROUP_OBJ, 0, UNDEFINED_ID), Entry(GROUP, 2, group)];
            && !Withheld(before, operator)
            && Effective(before, before[1]) == 2 && Effective(after, before[1]) == 0
  {
    var before := [Entry(GROUP_OBJ, 0, UNDEFINED_ID), Entry(GROUP, 2, group)];
    assert First(before[1..][1..], Masks).None? && First(before[1..], Masks).None? && First(before, Masks).None?;
    assert First(before, OwningGroup) == Some(before[0]);
    MaskAfter(before, operator, after);
    assert First(after, Masks).value.perm == 1;
    AndZero(1);
    assert And(2, 1) == 0;
  }

  /** What the kernel accepts: a list with a named entry has a mask, and the
      owning group has one entry. */
  ghost predicate Acceptable(es: seq<Entry>) {
    && First(es, OwningGroup).Some?
    && (forall e, f :: e in es && f in es && e.tag == GROUP_OBJ && f.tag == GROUP_OBJ ==> e == f)
    && ((exists e :: e in es && (e.tag == USER || e.tag == GROUP)) ==> First(es, Masks).Some?)
  }

  lemma AcceptableUnchanged(before: seq<Entry>, operator: Word32, after: seq<Entry>, e: Entry)
    requires Acceptable(before) && Granted(before, operator, after) && !Withheld(before, operator)
    requires e in before && Others(operator).Picks(e)
    ensures e in after && Effective(after, e) == Effective(before, e)
  {
    GrantedMembers(before, operator, after);
    if First(before, Masks).None? {
      var owning := First(before, OwningGroup).value.perm;
      AndLowBit(owning, owning);
      AndSelf(owning);
      assert Uncapped(before, operator);
    }
    OthersUnchanged(before, operator, after);
  }

  /** And the grant is refused exactly when it would have changed one. */
  lemma WithheldExactly(before: seq<Entry>, operator: Word32, after: seq<Entry>)
    requires Acceptable(before) && Granted(before, operator, after)
    ensures Withheld(before, operator)
            <==> exists e :: e in before && Others(operator).Picks(e) && Effective(after, e) != Effective(before, e)
  {
    if Withheld(before, operator) {
      var e :| e in before && Others(operator).Picks(e) && SearchableGroupClass.Picks(e);
      var mask := StartingMask(before).value.perm;
      MaskAfter(before, operator, after);
      AndLowBit(e.perm, mask);
      assert First(before, Masks).Some?;
      assert Effective(after, e) == Effective(before, e) + 1;
    } else {
      forall e | e in before && Others(operator).Picks(e) ensures Effective(after, e) == Effective(before, e) {
        AcceptableUnchanged(before, operator, after, e);
      }
    }
  }

  /** The operator's own entry gains search and loses nothing. */
  lemma OperatorGainsSearch(before: seq<Entry>, operator: Word32, after: seq<Entry>)
    requires Granted(before, operator, after)
    ensures var mine := Entry(USER, WithLowBit(OperatorPerm(before, operator)), operator);
            && mine in after
            && Effective(after, mine)
               == WithLowBit(And(OperatorPerm(before, operator), StartingMask(before).value.perm))
  {
    GrantedMembers(before, operator, after);
    MaskAfter(before, operator, after);
    AndBothLowBits(OperatorPerm(before, operator), StartingMask(before).value.perm);
  }

  // ----- Granting again -----

  /** A granted list is never withheld, and granting it again writes the same bytes: an
      ancestor shared by two directories can be granted for each. */
  lemma GrantAgain(before: seq<Entry>, operator: Word32, mid: seq<Entry>, after: seq<Entry>)
    requires Granted(before, operator, mid)
    ensures StartingMask(mid).Some? && !Withheld(mid, operator)
    ensures Granted(mid, operator, after) ==> Encode(after) == Encode(mid)
  {
    hide Encode, First, Keep, WithLowBit;
    MaskAfter(before, operator, mid);
    OneMaskOneOperator(before, operator, mid);
    OperatorPermAfter(before, operator, mid);
    MaskFound(mid);
    LowBitStays(StartingMask(before).value.perm);
    LowBitStays(OperatorPerm(before, operator));
    if Granted(mid, operator, after) {
      assert multiset(after) == multiset(mid);
      EncodeInjective(after, mid);
    }
  }

  lemma MaskFound(es: seq<Entry>)
    requires First(es, Masks).Some?
    ensures StartingMask(es) == First(es, Masks)
  {
  }

  lemma LowBitStays(perm: Word16)
    ensures WithLowBit(perm) % 2 == 1 && WithLowBit(WithLowBit(perm)) == WithLowBit(perm)
  {
  }

  lemma OperatorPermAfter(before: seq<Entry>, operator: Word32, mid: seq<Entry>)
    requires Granted(before, operator, mid)
    ensures OperatorPerm(mid, operator) == WithLowBit(OperatorPerm(before, operator))
  {
    GrantedMembers(before, operator, mid);
    var mine := Entry(USER, WithLowBit(OperatorPerm(before, operator)), operator);
    hide First, Granted;
    OperatorEntry(mid, operator, mine);
  }

  lemma OperatorEntry(es: seq<Entry>, operator: Word32, mine: Entry)
    requires mine in es && OperatorIs(operator).Picks(mine)
    requires forall e :: e in es && OperatorIs(operator).Picks(e) ==> e == mine
    ensures OperatorPerm(es, operator) == mine.perm
  {
  }
}
