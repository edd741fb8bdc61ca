/** The release-tree worklist check (ori/doctor.py:528-540, 706-860, 891-896). */
module ReleaseTree {
  import opened Options
  import Bits
  import opened ModeBits

  /** Owner, group and permission bits of an inode. */
  datatype Info = Info(uid: nat, gid: nat, mode: nat)

  datatype Service = Service(uid: nat, gids: set<nat>, groupsComplete: bool)

  /** What the installer's rule says of a symlink; asking may itself fail. */
  datatype LinkCheck = Permitted | NotPermitted | CheckRaises

  /** The entries of a directory, in the order they are visited. */
  datatype Listing = Unlistable | Listed(entries: seq<Node>)

  /** A name in the release, by what lstat says of it. */
  datatype Node =
    | Uninspectable
    | Symlink(check: LinkCheck)
    | Directory(info: Info, listing: Listing)
    | Regular(info: Info)
    | Special

  const WRITE: nat := 2
  const EXECUTE: nat := 1

  /** One class decides: an owner has the owner's bits and no more, a member of the group
      the group's, anyone else the others'. */
  function ModeAllows(info: Info, service: Service, bit: nat): bool {
    if service.uid == 0 then true
    else if info.uid == service.uid then Bits.And(info.mode / 64, bit) != 0
    else if info.gid in service.gids then Bits.And(info.mode / 8, bit) != 0
    else Bits.And(info.mode, bit) != 0
  }

  function ClassOf(info: Info, service: Service): Class {
    if info.uid == service.uid then Owner else if info.gid in service.gids then Group else Other
  }

  /** What the kernel lets the service do: root anything, anyone else what its one class's
      bits allow. */
  predicate MayAccess(info: Info, service: Service, want: nat) {
    service.uid == 0 || Allows(info.mode, ClassOf(info, service), want)
  }

  /** The test on mode bits is that rule. */
  lemma ModeAllowsMeans(info: Info, service: Service, bit: nat)
    requires bit == 4 || bit == 2 || bit == 1
    ensures ModeAllows(info, service, bit) <==> MayAccess(info, service, bit)
  {
    hide Bits.And;
    var mode := info.mode;
    AndSingle(mode / 64);
    AndSingle(mode / 8);
    AndSingle(mode);
    assert mode / 64 / 4 == mode / 256 && mode / 64 / 2 == mode / 128;
    assert mode / 8 / 4 == mode / 32 && mode / 8 / 2 == mode / 16;
  }

  // ----- The recursive meaning -----

  datatype Reason = NotListed | NotInspected | LinkRefused | SpecialFile | Writable

  /** What is wrong with one entry, whatever is below it. */
  function Fault(n: Node, service: Service): Option<Reason> {
    match n
    case Uninspectable => Some(NotInspected)
    case Special => Some(SpecialFile)
    case Symlink(check) => if check == Permitted then None else Some(LinkRefused)
    case Regular(info) => if MayAccess(info, service, WRITE) then Some(Writable) else None
    case Directory(info, listing) =>
      if MayAccess(info, service, WRITE) then Some(Writable)
      else if listing == Unlistable then Some(NotListed)
      else None
  }

  /** The entry at a path of positions below a listing. */
  function EntryAt(listing: Listing, path: seq<nat>): Option<Node>
    decreases |path|
  {
    if path == [] || listing == Unlistable || path[0] >= |listing.entries| then None
    else
      var n := listing.entries[path[0]];
      if |path| == 1 then Some(n) else if n.Directory? then EntryAt(n.listing, path[1..]) else None
  }

  /** Every entry at every depth is a permitted symlink, or a directory or regular file
      the service cannot write, and every directory can be listed. */
  ghost predicate Immutable(root: Listing, service: Service) {
    root.Listed? && forall path :: EntryAt(root, path).Some? ==> Fault(EntryAt(root, path).value, service) == None
  }

  predicate Fine(n: Node, service: Service)
    decreases n
  {
    Fault(n, service) == None && (n.Directory? ==> ListingFine(n.listing, service))
  }

  predicate ListingFine(listing: Listing, service: Service)
    decreases listing
  {
    listing.Listed? && AllFine(listing.entries, service)
  }

  predicate AllFine(ns: seq<Node>, service: Service)
    decreases ns
  {
    ns == [] || (Fine(ns[0], service) && AllFine(ns[1..], service))
  }

  lemma {:induction false} AllFineEach(ns: seq<Node>, service: Service)
    ensures AllFine(ns, service) <==> forall i :: 0 <= i < |ns| ==> Fine(ns[i], service)
    decreases |ns|
  {
    if ns != [] {
      AllFineEach(ns[1..], service);
      hide Fine;
      assert forall i :: 0 < i < |ns| ==> ns[i] == ns[1..][i - 1];
      assert forall i :: 0 <= i < |ns[1..]| ==> ns[1..][i] == ns[i + 1];
    }
  }

  /** Fine, entry by entry, is immutable, path by path. */
  lemma FineIsImmutable(ns: seq<Node>, service: Service)
    ensures AllFine(ns, service) <==> Immutable(Listed(ns), service)
  {
    if AllFine(ns, service) {
      forall path | EntryAt(Listed(ns), path).Some? ensures Fault(EntryAt(Listed(ns), path).value, service) == None {
        FineAt(Listed(ns), service, path);
      }
    }
    if !AllFine(ns, service) {
      var path := NotFineAt(ns, service);
    }
  }

  lemma {:induction false} FineAt(listing: Listing, service: Service, path: seq<nat>)
    requires ListingFine(listing, service) && EntryAt(listing, path).Some?
    ensures Fault(EntryAt(listing, path).value, service) == None
    decreases |path|
  {
    AllFineEach(listing.entries, service);
    assert Fine(listing.entries[path[0]], service);
    if |path| > 1 {
      FineAt(listing.entries[path[0]].listing, service, path[1..]);
    }
  }

  lemma {:induction false} NotFineAt(ns: seq<Node>, service: Service) returns (path: seq<nat>)
    requires !AllFine(ns, service)
    ensures EntryAt(Listed(ns), path).Some? && Fault(EntryAt(Listed(ns), path).value, service) != None
    decreases WeightOf(ns)
  {
    AllFineEach(ns, service);
    var i :| 0 <= i < |ns| && !Fine(ns[i], service);
    if Fault(ns[i], service) != None {
      path := [i];
    } else {
      Heavier(ns, i);
      assert ns[i].Directory? && !ListingFine(ns[i].listing, service);
      var below := NotFineAt(ns[i].listing.entries, service);
      path := [i] + below;
      assert path[1..] == below;
    }
  }

  lemma {:induction false} Heavier(ns: seq<Node>, i: nat)
    requires i < |ns|
    ensures Weight(ns[i]) <= WeightOf(ns)
  {
    if i > 0 {
      Heavier(ns[1..], i - 1);
    }
  }

  /** How many entries there are at and below a node. */
  function Weight(n: Node): nat
    decreases n
  {
    if n.Directory? then ListingWeight(n.listing) else 1
  }

  function ListingWeight(listing: Listing): nat
    decreases listing
  {
    1 + (if listing.Listed? then WeightOf(listing.entries) else 0)
  }

  function WeightOf(ns: seq<Node>): nat
    decreases ns
  {
    if ns == [] then 0 else Weight(ns[0]) + WeightOf(ns[1..])
  }

  // ----- The first fault in visiting order -----

  datatype Verdict = Clean | Violation(path: seq<nat>, reason: Reason) | Raised(path: seq<nat>)

  function OrElse(v: Verdict, w: Verdict): Verdict {
    if v == Clean then w else v
  }

  /** The verdict on a directory, as one on the directory `path` leads from. */
  function Under(path: seq<nat>, v: Verdict): Verdict {
    match v
    case Clean => Clean
    case Violation(p, reason) => Violation(path + p, reason)
    case Raised(p) => Raised(path + p)
  }

  /** What is found at one entry, whatever is below it. */
  function Shown(n: Node, service: Service, i: nat): Verdict {
    match n
    case Uninspectable => Violation([i], NotInspected)
    case Special => Violation([i], SpecialFile)
    case Symlink(check) =>
      if check == CheckRaises then Raised([i]) else if check == NotPermitted then Violation([i], LinkRefused) else Clean
    case Regular(info) => if MayAccess(info, service, WRITE) then Violation([i], Writable) else Clean
    case Directory(info, _) => if MayAccess(info, service, WRITE) then Violation([i], Writable) else Clean
  }

  /** A directory's own entries come first, in order; then its subdirectories, the last of
      them first. */
  function Walk(listing: Listing, service: Service): Verdict
    decreases listing
  {
    match listing
    case Unlistable => Violation([], NotListed)
    case Listed(ns) => OrElse(Across(ns, 0, service), Down(ns, |ns|, service))
  }

  function Across(ns: seq<Node>, i: nat, service: Service): Verdict
    requires i <= |ns|
    decreases |ns| - i
  {
    if i == |ns| then Clean else OrElse(Shown(ns[i], service, i), Across(ns, i + 1, service))
  }

  function Down(ns: seq<Node>, k: nat, service: Service): Verdict
    requires k <= |ns|
    decreases ns, k
  {
    if k == 0 then Clean
    else OrElse(Under([k - 1], WalkNode(ns[k - 1], service)), Down(ns, k - 1, service))
  }

  function WalkNode(n: Node, service: Service): Verdict
    decreases n
  {
    if n.Directory? then Walk(n.listing, service) else Clean
  }

  // ----- What that order is, path by path -----

  /** There is a fault at `path`: the top that cannot be listed, or an entry below. */
  ghost predicate FaultyAt(root: Listing, service: Service, path: seq<nat>, reason: Reason) {
    if path == [] then root == Unlistable && reason == NotListed
    else EntryAt(root, path).Some? && Fault(EntryAt(root, path).value, service) == Some(reason)
  }

  /** When a fault is met: with its entry, or, for a directory that cannot be listed, where
      its first entry would be. */
  function Met(path: seq<nat>, reason: Reason): seq<nat> {
    if reason == NotListed then path + [0] else path
  }

  /** The visiting order of entries: in one directory by position; a directory's entries
      before any of its subdirectories'; of two subdirectories the later one first. */
  predicate Earlier(p: seq<nat>, q: seq<nat>)
    decreases |p|
  {
    p != [] && q != [] &&
    if |p| == 1 then |q| > 1 || p[0] < q[0]
    else |q| > 1 && (if p[0] == q[0] then Earlier(p[1..], q[1..]) else p[0] > q[0])
  }

  function ReasonOf(v: Verdict): Reason
    requires v != Clean
  {
    if v.Raised? then LinkRefused else v.reason
  }

  /** The verdict of a tree: clean exactly when there is no fault at any path; otherwise the
      fault met first, raised exactly when it is a symlink whose check fails. */
  ghost predicate Reports(root: Listing, service: Service, v: Verdict) {
    if v == Clean then forall path, reason :: !FaultyAt(root, service, path, reason)
    else
      && FaultyAt(root, service, v.path, ReasonOf(v))
      && (v.Raised? <==> EntryAt(root, v.path) == Some(Symlink(CheckRaises)))
      && forall q, r :: FaultyAt(root, service, q, r) ==>
           q == v.path || Earlier(Met(v.path, ReasonOf(v)), Met(q, r))
  }

  lemma {:induction false} AcrossFinds(ns: seq<Node>, i: nat, service: Service) returns (j: nat)
    requires i <= |ns|
    ensures i <= j <= |ns| && forall k :: i <= k < j ==> Shown(ns[k], service, k) == Clean
    ensures var v := Across(ns, i, service);
            if v == Clean then j == |ns| else j < |ns| && v == Shown(ns[j], service, j)
    decreases |ns| - i
  {
    hide Shown;
    j := i;
    if i < |ns| && Shown(ns[i], service, i) == Clean {
      j := AcrossFinds(ns, i + 1, service);
    }
  }

  lemma {:induction false} DownFinds(ns: seq<Node>, k: nat, service: Service) returns (j: int)
    requires k <= |ns|
    ensures -1 <= j < k && forall m :: j < m < k ==> WalkNode(ns[m], service) == Clean
    ensures var v := Down(ns, k, service);
            if v == Clean then j == -1
            else 0 <= j && v == Under([j], WalkNode(ns[j], service)) && WalkNode(ns[j], service) != Clean
    decreases k
  {
    hide WalkNode;
    j := k - 1;
    if k > 0 && WalkNode(ns[k - 1], service) == Clean {
      j := DownFinds(ns, k - 1, service);
    }
  }

  /** Where a fault can be in a directory: at one of its entries, or below a subdirectory. */
  lemma FaultSplits(ns: seq<Node>, service: Service, q: seq<nat>, r: Reason)
    requires FaultyAt(Listed(ns), service, q, r)
    ensures q != [] && q[0] < |ns|
    ensures |q| == 1 ==> Fault(ns[q[0]], service) == Some(r)
    ensures |q| > 1 || r == NotListed ==> ns[q[0]].Directory? && FaultyAt(ns[q[0]].listing, service, q[1..], r)
    ensures |q| == 1 && r != NotListed ==> Shown(ns[q[0]], service, q[0]) != Clean
  {
    hide MayAccess;
  }

  /** And the other way. */
  lemma FaultBelow(ns: seq<Node>, service: Service, j: nat, q: seq<nat>, r: Reason)
    requires j < |ns| && ns[j].Directory? && Shown(ns[j], service, j) == Clean
    requires FaultyAt(ns[j].listing, service, q, r)
    ensures FaultyAt(Listed(ns), service, [j] + q, r)
    ensures EntryAt(Listed(ns), [j] + q) == if q == [] then Some(ns[j]) else EntryAt(ns[j].listing, q)
    ensures EntryAt(ns[j].listing, []) == None
  {
    hide MayAccess;
    assert ([j] + q)[1..] == q;
  }

  /** The walk meets the earliest fault, in every tree. */
  lemma {:induction false} WalkReports(listing: Listing, service: Service)
    ensures Reports(listing, service, Walk(listing, service))
    decreases ListingWeight(listing)
  {
    match listing
    case Unlistable =>
    case Listed(ns) =>
      var i := AcrossFinds(ns, 0, service);
      if i < |ns| {
        ShownReports(ns, service, i);
      } else {
        forall j | 0 <= j < |ns| && ns[j].Directory?
          ensures Reports(ns[j].listing, service, Walk(ns[j].listing, service))
        {
          Heavier(ns, j);
          WalkReports(ns[j].listing, service);
        }
        DownReports(ns, service);
      }
  }

  lemma ShownReports(ns: seq<Node>, service: Service, i: nat)
    requires i < |ns| && Shown(ns[i], service, i) != Clean
    requires forall k :: 0 <= k < i ==> Shown(ns[k], service, k) == Clean
    ensures Reports(Listed(ns), service, Shown(ns[i], service, i))
  {
    var v := Shown(ns[i], service, i);
    assert v.path == [i] && EntryAt(Listed(ns), [i]) == Some(ns[i]) && ReasonOf(v) != NotListed;
    assert Fault(ns[i], service) == Some(ReasonOf(v));
    hide MayAccess, Fault, Shown;
    forall q, r | FaultyAt(Listed(ns), service, q, r) ensures q == [i] || Earlier([i], Met(q, r)) {
      FaultSplits(ns, service, q, r);
      assert |q| == 1 ==> q == [q[0]];
    }
  }

  lemma DownReports(ns: seq<Node>, service: Service)
    requires forall j :: 0 <= j < |ns| ==> Shown(ns[j], service, j) == Clean
    requires forall j :: 0 <= j < |ns| && ns[j].Directory? ==>
               Reports(ns[j].listing, service, Walk(ns[j].listing, service))
    ensures Reports(Listed(ns), service, Down(ns, |ns|, service))
  {
    hide Shown, Fault, Walk, EntryAt, FaultyAt, Earlier;
    var j := DownFinds(ns, |ns|, service);
    if j == -1 {
      forall q, r ensures !FaultyAt(Listed(ns), service, q, r) {
        if FaultyAt(Listed(ns), service, q, r) {
          FaultIsBelow(ns, service, q, r);
          assert false;
        }
      }
    } else {
      var w := Walk(ns[j].listing, service);
      FaultBelow(ns, service, j, w.path, ReasonOf(w));
      forall q, r | FaultyAt(Listed(ns), service, q, r)
        ensures q == [j] + w.path || Earlier(Met([j] + w.path, ReasonOf(w)), Met(q, r))
      {
        FaultIsBelow(ns, service, q, r);
        DownEarlier(ns, service, j, q, r);
      }
    }
  }

  lemma FaultIsBelow(ns: seq<Node>, service: Service, q: seq<nat>, r: Reason)
    requires FaultyAt(Listed(ns), service, q, r)
    requires forall j :: 0 <= j < |ns| ==> Shown(ns[j], service, j) == Clean
    requires forall j :: 0 <= j < |ns| && ns[j].Directory? ==>
               Reports(ns[j].listing, service, Walk(ns[j].listing, service))
    ensures q != [] && q[0] < |ns| && ns[q[0]].Directory? && FaultyAt(ns[q[0]].listing, service, q[1..], r)
    ensures WalkNode(ns[q[0]], service) != Clean
  {
    hide Shown, Walk, FaultyAt;
    FaultSplits(ns, service, q, r);
    assert Shown(ns[q[0]], service, q[0]) == Clean;
  }

  lemma DownEarlier(ns: seq<Node>, service: Service, j: nat, q: seq<nat>, r: Reason)
    requires j < |ns| && ns[j].Directory? && WalkNode(ns[j], service) != Clean
    requires forall m :: j < m < |ns| ==> WalkNode(ns[m], service) == Clean
    requires q != [] && q[0] < |ns| && ns[q[0]].Directory? && FaultyAt(ns[q[0]].listing, service, q[1..], r)
    requires WalkNode(ns[q[0]], service) != Clean
    requires Reports(ns[j].listing, service, Walk(ns[j].listing, service))
    ensures var w := Walk(ns[j].listing, service);
            q == [j] + w.path || Earlier(Met([j] + w.path, ReasonOf(w)), Met(q, r))
  {
    hide Walk, FaultyAt;
    var w := Walk(ns[j].listing, service);
    assert q == [q[0]] + q[1..];
    MetBelow(j, w.path, ReasonOf(w));
    MetBelow(q[0], q[1..], r);
    MetSomewhere(ns[q[0]].listing, service, q[1..], r);
    MetSomewhere(ns[j].listing, service, w.path, ReasonOf(w));
    assert q[0] <= j;
  }

  lemma MetBelow(i: nat, path: seq<nat>, r: Reason)
    ensures Met([i] + path, r) == [i] + Met(path, r)
    ensures ([i] + Met(path, r))[1..] == Met(path, r)
  {
  }

  lemma MetSomewhere(root: Listing, service: Service, path: seq<nat>, r: Reason)
    requires FaultyAt(root, service, path, r)
    ensures Met(path, r) != []
  {
  }

  // ----- The worklist -----

  /** A directory waiting to be listed. */
  datatype Waiting = Waiting(path: seq<nat>, listing: Listing)

  function StackWeight(stack: seq<Waiting>): nat {
    if stack == [] then 0 else StackWeight(stack[..|stack| - 1]) + ListingWeight(stack[|stack| - 1].listing)
  }

  /** What the walks of the directories on a stack come to, the top one first. */
  function StackWalk(stack: seq<Waiting>, service: Service): Verdict {
    if stack == [] then Clean
    else
      var top := stack[|stack| - 1];
      OrElse(Under(top.path, Walk(top.listing, service)), StackWalk(stack[..|stack| - 1], service))
  }

  lemma UnderTwice(path: seq<nat>, i: nat, v: Verdict, w: Verdict)
    ensures Under(path, OrElse(Under([i], v), w)) == OrElse(Under(path + [i], v), Under(path, w))
    ensures Under([], v) == v
  {
    if v != Clean {
      assert path + ([i] + v.path) == path + [i] + v.path && [] + v.path == v.path;
    }
  }

  lemma TopFirst(stack: seq<Waiting>, top: Waiting, service: Service)
    ensures StackWalk(stack + [top], service)
            == OrElse(Under(top.path, Walk(top.listing, service)), StackWalk(stack, service))
    ensures StackWeight(stack + [top]) == StackWeight(stack) + ListingWeight(top.listing)
  {
    assert (stack + [top])[..|stack|] == stack;
  }

  /** What one more entry of a directory adds: a subdirectory goes on top. */
  lemma OneEntry(ns: seq<Node>, i: nat, service: Service, path: seq<nat>, stack: seq<Waiting>, waiting: Verdict)
    requires i < |ns|
    requires StackWalk(stack, service) == OrElse(Under(path, Down(ns, i, service)), waiting)
    ensures var top := if ns[i].Directory? then [Waiting(path + [i], ns[i].listing)] else [];
            && StackWalk(stack + top, service) == OrElse(Under(path, Down(ns, i + 1, service)), waiting)
            && StackWeight(stack + top) + WeightOf(ns[i + 1..]) <= StackWeight(stack) + WeightOf(ns[i..])
  {
    assert ns[i..][0] == ns[i] && ns[i..][1..] == ns[i + 1..];
    UnderTwice(path, i, WalkNode(ns[i], service), Down(ns, i, service));
    if ns[i].Directory? {
      TopFirst(stack, Waiting(path + [i], ns[i].listing), service);
    } else {
      assert stack + [] == stack;
    }
    hide Walk, Under, StackWalk, StackWeight, ListingWeight;
  }

  lemma AllEntries(ns: seq<Node>, service: Service, path: seq<nat>)
    ensures Across(ns, 0, service) == Clean ==> Walk(Listed(ns), service) == Down(ns, |ns|, service)
    ensures Across(ns, |ns|, service) == Clean && Under(path, Down(ns, 0, service)) == Clean
    ensures ListingWeight(Listed(ns)) == 1 + WeightOf(ns[0..]) && WeightOf(ns[|ns|..]) == 0
  {
    assert ns[0..] == ns && ns[|ns|..] == [];
  }

  /** The loop of directories over a stack reports the tree's first fault. */
  method IntegrityViolation(root: Listing, service: Service) returns (verdict: Verdict)
    ensures verdict == Walk(root, service)
    ensures Reports(root, service, verdict)
    ensures verdict == Clean <==> Immutable(root, service)
  {
    hide *;
    WalkReports(root, service);
    CleanIsImmutable(root, service);
    var stack := [Waiting([], root)];
    OnlyRoot(root, service);
    while stack != []
      invariant StackWalk(stack, service) == Walk(root, service)
      decreases StackWeight(stack)
    {
      PopTop(stack, service);
      var current := stack[|stack| - 1];
      stack := stack[..|stack| - 1];
      if current.listing == Unlistable {
        UnlistedWalk(current.path, service, stack);
        return Violation(current.path, NotListed);
      }
      var found: Verdict;
      found, stack := VisitEntries(current, stack, service);
      if found != Clean {
        FoundFirst(found);
        return found;
      }
      CleanFirst();
    }
    EmptyWalk(service);
    return Clean;
  }

  lemma OnlyRoot(root: Listing, service: Service)
    ensures StackWalk([Waiting([], root)], service) == Walk(root, service)
  {
    TopFirst([], Waiting([], root), service);
    assert [] + [Waiting([], root)] == [Waiting([], root)];
    UnderTwice([], 0, Walk(root, service), Clean);
  }

  lemma PopTop(stack: seq<Waiting>, service: Service)
    requires stack != []
    ensures var top, rest := stack[|stack| - 1], stack[..|stack| - 1];
            && StackWalk(stack, service)
               == OrElse(Under(top.path, Walk(top.listing, service)), StackWalk(rest, service))
            && StackWeight(stack) == StackWeight(rest) + ListingWeight(top.listing)
  {
  }

  lemma FoundFirst(v: Verdict)
    requires v != Clean
    ensures forall w :: OrElse(v, w) == v
  {
  }

  lemma CleanFirst()
    ensures forall w :: OrElse(Clean, w) == w
  {
  }

  /** The loop over one directory's entries: the first of them at fault, or the stack with
      its subdirectories pushed. */
  method VisitEntries(current: Waiting, waiting: seq<Waiting>, service: Service)
    returns (verdict: Verdict, stack: seq<Waiting>)
    requires current.listing.Listed?
    ensures var v := Under(current.path, Walk(current.listing, service));
            if verdict == Clean then StackWalk(stack, service) == OrElse(v, StackWalk(waiting, service))
            else verdict == v
    ensures verdict == Clean ==> StackWeight(stack) < StackWeight(waiting) + ListingWeight(current.listing)
  {
    var entries := current.listing.entries;
    AllEntries(entries, service, current.path);
    CleanFirst();
    hide Walk, Across, Down, StackWalk, StackWeight, ListingWeight, WeightOf, Under, OrElse, ModeAllows, MayAccess;
    stack := waiting;
    var i := 0;
    while i < |entries|
      invariant 0 <= i <= |entries|
      invariant Across(entries, i, service) == Across(entries, 0, service)
      invariant StackWalk(stack, service)
                == OrElse(Under(current.path, Down(entries, i, service)), StackWalk(waiting, service))
      invariant StackWeight(stack) + WeightOf(entries[i..]) <= StackWeight(waiting) + WeightOf(entries[0..])
      decreases |entries| - i
    {
      var entry, path := entries[i], current.path + [i];
      OneEntry(entries, i, service, current.path, stack, StackWalk(waiting, service));
      StopsAt(entries, i, service, current.path);
      assert stack + [] == stack;
      match entry {
        case Uninspectable =>
          return Violation(path, NotInspected), stack;
        case Symlink(check) =>
          if check == CheckRaises {
            return Raised(path), stack;
          }
          if check == NotPermitted {
            return Violation(path, LinkRefused), stack;
          }
        case Directory(info, listing) =>
          ModeAllowsMeans(info, service, WRITE);
          if ModeAllows(info, service, WRITE) {
            return Violation(path, Writable), stack;
          }
          stack := stack + [Waiting(path, listing)];
        case Special =>
          return Violation(path, SpecialFile), stack;
        case Regular(info) =>
          ModeAllowsMeans(info, service, WRITE);
          if ModeAllows(info, service, WRITE) {
            return Violation(path, Writable), stack;
          }
      }
      i := i + 1;
    }
    return Clean, stack;
  }

  /** An entry at fault, with none before it, is what the walk of its directory comes to. */
  lemma StopsAt(ns: seq<Node>, i: nat, service: Service, path: seq<nat>)
    requires i < |ns| && Across(ns, i, service) == Across(ns, 0, service)
    ensures match Shown(ns[i], service, i)
            case Clean => Across(ns, i + 1, service) == Across(ns, 0, service)
            case Violation(_, reason) => Under(path, Walk(Listed(ns), service)) == Violation(path + [i], reason)
            case Raised(_) => Under(path, Walk(Listed(ns), service)) == Raised(path + [i])
  {
    hide Down;
  }

  lemma EmptyWalk(service: Service)
    ensures StackWalk([], service) == Clean
  {
  }

  lemma UnlistedWalk(path: seq<nat>, service: Service, rest: seq<Waiting>)
    ensures OrElse(Under(path, Walk(Unlistable, service)), StackWalk(rest, service)) == Violation(path, NotListed)
  {
    hide StackWalk;
    assert path + [] == path;
  }

  /** Without a fault at any path a tree is immutable, and that is the recursive meaning too. */
  lemma CleanIsImmutable(root: Listing, service: Service)
    ensures Walk(root, service) == Clean <==> Immutable(root, service)
    ensures Walk(root, service) == Clean <==> ListingFine(root, service)
  {
    WalkReports(root, service);
    if root.Listed? {
      FineIsImmutable(root.entries, service);
    }
    hide Walk;
    var v := Walk(root, service);
    if v == Clean {
      assert !FaultyAt(root, service, [], NotListed);
      forall path | EntryAt(root, path).Some? ensures Fault(EntryAt(root, path).value, service) == None {
        var fault := Fault(EntryAt(root, path).value, service);
        assert fault.Some? ==> FaultyAt(root, service, path, fault.value);
      }
    }
  }

  /** A release holding one symlink whose check fails gets no verdict. */
  lemma UnreadableLinkRaises(service: Service)
    ensures Walk(Listed([Symlink(CheckRaises)]), service) == Raised([0])
    ensures !Immutable(Listed([Symlink(CheckRaises)]), service)
  {
    var ns := [Symlink(CheckRaises)];
    assert Shown(ns[0], service, 0) == Raised([0]);
    assert Across(ns, 0, service) == Raised([0]);
    hide Walk;
    CleanIsImmutable(Listed(ns), service);
    AllEntries(ns, service, []);
  }

  // ----- The mandatory check -----

  datatype Scope = UserScope | SystemScope | OtherScope

  datatype Status = Pass | Warn | Failed

  /** What a failure names: the install root, or a place in the release, which the empty
      path is the top of. */
  datatype Offending = Nothing | InstallRoot | InRelease(path: seq<nat>)

  datatype Check = Checked(status: Status, offending: Offending) | CheckRaised

  /** Whether the service cannot rewrite the release, with nothing left unestablished: its
      groups are all known, the install root is usable, and the release directory and
      everything in it are immutable to it. */
  ghost predicate Established(service: Service, layoutOk: bool, release: Option<Info>, root: Listing) {
    && service.groupsComplete && layoutOk
    && release.Some? && !MayAccess(release.value, service, WRITE)
    && Immutable(root, service)
  }

  /** In system scope the check passes exactly when immutability is established; user scope
      is only ever warned of, and any other scope fails. */
  method CodeIntegrity(scope: Scope, service: Service, layoutOk: bool, release: Option<Info>, root: Listing)
    returns (check: Check)
    ensures check.Checked? && check.status == Pass
            <==> scope == SystemScope && Established(service, layoutOk, release, root)
    ensures check.Checked? && check.status == Warn <==> scope == UserScope
    ensures check.CheckRaised?
            <==> && scope == SystemScope && service.groupsComplete && layoutOk
                 && release.Some? && !MayAccess(release.value, service, WRITE)
                 && Walk(root, service).Raised?
    ensures check.Checked? && check.offending.InRelease? && check.offending.path != [] ==>
              var at := EntryAt(root, check.offending.path);
              at.Some? && Fault(at.value, service) != None
    ensures check.Checked? && check.offending == InstallRoot
            <==> && scope == SystemScope && service.groupsComplete && !layoutOk
                 && release.Some? && !MayAccess(release.value, service, WRITE)
    ensures check.Checked? && check.offending == InRelease([])
            <==> && scope == SystemScope && service.groupsComplete
                 && (release == None || MayAccess(release.value, service, WRITE) || (layoutOk && root == Unlistable))
    ensures && scope == SystemScope && service.groupsComplete && layoutOk
            && release.Some? && !MayAccess(release.value, service, WRITE) && Walk(root, service).Violation? ==>
              check == Checked(Failed, InRelease(Walk(root, service).path))
  {
    hide ModeAllows, MayAccess, EntryAt, Fault;
    if scope == UserScope {
      return Checked(Warn, Nothing);
    }
    if scope != SystemScope {
      return Checked(Failed, Nothing);
    }
    if !service.groupsComplete {
      return Checked(Failed, Nothing);
    }
    if release.Some? {
      ModeAllowsMeans(release.value, service, WRITE);
    }
    if release == None || ModeAllows(release.value, service, WRITE) {
      return Checked(Failed, InRelease([]));
    }
    if !layoutOk {
      return Checked(Failed, InstallRoot);
    }
    var verdict := IntegrityViolation(root, service);
    match verdict {
      case Clean =>
        return Checked(Pass, Nothing);
      case Violation(path, _) =>
        return Checked(Failed, InRelease(path));
      case Raised(_) =>
        return CheckRaised;
    }
  }

  /** How far the service gets along a path from the root down; a component that cannot be
      inspected stops it. */
  method FirstUnsearchable(way: seq<Option<Info>>, service: Service) returns (blocked: Option<nat>)
    ensures blocked == None <==> forall i :: 0 <= i < |way| ==> Searchable(way[i], service)
    ensures blocked.Some? ==>
              && blocked.value < |way| && !Searchable(way[blocked.value], service)
              && forall i :: 0 <= i < blocked.value ==> Searchable(way[i], service)
  {
    for i := 0 to |way|
      invariant forall k :: 0 <= k < i ==> Searchable(way[k], service)
    {
      if way[i].Some? {
        ModeAllowsMeans(way[i].value, service, EXECUTE);
      }
      if way[i] == None || !ModeAllows(way[i].value, service, EXECUTE) {
        return Some(i);
      }
    }
    return None;
  }

  predicate Searchable(info: Option<Info>, service: Service) {
    info.Some? && MayAccess(info.value, service, EXECUTE)
  }
}
