# Verified model of the Ori runtime's hardest mechanisms

Ori runs safety actions on small devices: it reads a signed configuration, drives relays
through a commissioned zone, lets one operator approve proposals over a local socket or
by SMS, and refuses to run code its own service account could rewrite. This project
models ten mechanisms the runtime's guarantees rest on, and proves what each is for.

Verify everything with `dafny verify dfyconfig.toml`.

- **Public-key admission** (`Congruence`, `EdwardsPoints`, `KeyAdmission`, `KeyRoots`).
  Extended twisted-Edwards addition and double-and-add over any modulus and constant: sums
  stay on the curve, the loop computes the k-fold sum in any monoid the points stand in, and
  negation passes through both and is the inverse. Which verdict each key gets, exactly, with
  the decoding of RFC 8032, section 5.1.3; the source never chooses the root the sign bit
  asks for, and is proved not to need to. Stated over any modulus with a square root of -1,
  then instantiated at 2^255 - 19.
- **PZEM simulator** (`Bits`, `Crc16`, `CrcDivision`, `PzemFrames`). The bit loop of
  CRC-16/Modbus is the serial shift register, and its value the remainder of a long division
  of polynomials; every burst of up to sixteen bits and every odd number of wrong bits is
  detected; a frame checks to zero exactly when its trailer is its checksum; replies read
  back as the value held.
- **Access-control lists** (`AclCodec`, `SearchGrant`, `ModeBits`, `AccessCheck`). The byte
  codec up to order; the mask-aware search grant; and what both mean to the access check
  algorithm of POSIX 1003.1e draft 17, section 23.1.5, against the nine bits of a mode where
  there is no list.
- **Login user IDs** (`Text`, `LoginUid`). The operating system's steps (a process starts,
  is reaped, or has its login user ID set, and numbers are used again) interleaved with
  the reader's: whatever is recorded was read while the number named the pinned process.
- **Operator socket** (`SocketProtocol`, `SocketDrains`, `SocketServer`). Connections,
  registry operations and closers as steps between awaits; safety over every interleaving,
  a way out for every `close`, and the server's fields updated in place.
- **Configuration** (`EnvExpansion`, `ConfigTrees`, `ConfigComposer`, `ConfigLoader`,
  `ConfigLimits`, `ConfigPlaces`, `ConfigDocument`, `ConfigValues`, `ConfigEnvironment`). The
  bounded composer over parser events, with its exact limits; expansion that cannot change
  a document's structure; what the document built holds at every place; and exactly when a
  document's placeholders are all the variables that can change it.
- **Approval ingress** (`TokenBuckets`, `AdmissionExact`, `ApprovalIngressObjects`). Two
  levels of token buckets over every trace of replies, every decision exact in counts of
  admitted replies, and the refusal log; as values and as objects.
- **Firmware correlations** (`FirmwareCorrelations`, `FirmwareRequests`,
  `FirmwareController`). Concurrent requests under the operation lock, their correlations
  single-use in every run, and a run without the lock that signs two installs for one
  certificate request.
- **Release tree** (`ReleaseTree`) and **coil seam** (`CoilSeam`, `RelayObjects`). The
  worklist check reports the earliest fault in its visiting order, and is clean exactly
  when there is none at any path; the levels driven on a pin are the levels of the
  actuations recorded as executed.

## What the proofs found

Each of these is a condition proved exact, with a lemma at an input that fails it.

- The search grant reaches the operator exactly when the operator does not own the
  directory or could already search it (`AccessCheck.GrantReachesOperator`): an owner is
  judged by the owner's entry, which the grant does not touch. The owner of a directory
  of mode 0644 stays out (`AccessCheck.OwnerStaysOut`).
- The grant takes nothing from the operator exactly when the operator owns the directory,
  has an entry already, or was given no more than search by its groups, or else by the
  entry for others (`AccessCheck.OperatorLosesNothing`). On mode 0744 an operator who is
  neither loses read (`AccessCheck.OtherLosesRead`).
- On a list without a mask the grant adds one. Other entries keep their meaning exactly
  when there was a mask, or every other group-class permission lies within the owning
  group's with search (`SearchGrant.OthersUnchanged`); well-formed lists meet
  this, and `SearchGrant.NamedGroupCapped` is one that does not.
- The limits the configuration loader documents are not the whole condition: an anchor
  used twice is refused too, with no alias anywhere (`ConfigLimits.LimitsAreExact`,
  `ConfigLimits.RepeatedAnchorRefused`).
- No variable but a document's placeholders can change it exactly when every name that
  expansion reaches is one of them (`ConfigEnvironment.NonInterferenceExactly`). Documents
  without explicit tags meet this; a scalar tagged as something other than a string does
  not (`ConfigEnvironment.TaggedEscapes`).
- A command is recorded as something other than it drives exactly when it reaches a
  simulated line, or a line of the other polarity that takes it
  (`CoilSeam.FaithfulExactly`, `CoilSeam.SimulatedIsRecorded`).
- The integrity walk asks whether a symlink points to a directory, and asking can fail;
  the walk ends without a verdict exactly when that is the first fault it meets
  (`ReleaseTree.WalkReports`, `ReleaseTree.UnreadableLinkRaises`).

## Model

| member | source | states |
|---|---|---|
| `EdwardsPoints.PointAddOnCurve` | scripts/evidence_host.py:95-103 | the sum of two points that satisfy both extended-point equations satisfies them, for every modulus and constant |
| `EdwardsPoints.PointAddIsTheLaw` | scripts/evidence_host.py:95-103 | the sum's coordinates are the twisted Edwards addition law's, multiplied out: x = (x1*y2 + x2*y1)/(1 + d*x1*x2*y1*y2), y = (y1*y2 + x1*x2)/(1 - d*x1*x2*y1*y2) |
| `EdwardsPoints.PointAddNeg` | scripts/evidence_host.py:95-103 | addition commutes with negation, coordinate for coordinate |
| `EdwardsPoints.PointAddCommutes` | scripts/evidence_host.py:95-103 | addition does not depend on the order of its operands |
| `EdwardsPoints.IdentityIsNeutral` | scripts/evidence_host.py:95-107 | adding the loop's starting point on either side gives the same projective point |
| `EdwardsPoints.IdentityTest` | scripts/evidence_host.py:116-117 | the identity test holds exactly of the multiples of the loop's starting point |
| `EdwardsPoints.NegIsInverse` | scripts/evidence_host.py:95-117 | the negative of a point of the curve is on the curve, and the identity test holds of their sum |
| `EdwardsPoints.ScalarMul` | scripts/evidence_host.py:106-113 | the loop terminates, computes the multiple, and keeps every intermediate point on the curve |
| `EdwardsPoints.MultipleNeg` | scripts/evidence_host.py:106-117 | a multiple of the negated point is the negated multiple, and the one is the identity exactly when the other is |
| `EdwardsPoints.MultipleIsPower` | scripts/evidence_host.py:106-113 | for any monoid the curve's points map into, the loop computes the k-fold sum |
| `KeyAdmission.Ed25519Constants` | scripts/evidence_host.py:65-68 | the constants are 2^255 - 19, -121665/121666, a square root of -1, and 2^252 + 27742317777372353535851937790883648493; the modulus is 5 modulo 8 and d is not -1 |
| `KeyAdmission.RootIsOnCurve` | scripts/evidence_host.py:79-84 | any root that passes the check satisfies the affine curve equation with its y, primality not needed |
| `KeyAdmission.ExtendedOnCurve` | scripts/evidence_host.py:87 | the point built from an affine one satisfies both extended-point equations |
| `KeyAdmission.FindRoot` | scripts/evidence_host.py:79-84 | the square-root step finds the root the specification names, and it is reduced and on the curve |
| `KeyAdmission.RefusedPublicKeyClause` | scripts/evidence_host.py:71-92 | every verdict is exact: by length, y and root; and for a key that decodes, small order when eight times its point is the identity, mixed order when order times it is not, admitted otherwise; and it is the verdict of the RFC's decoding, which chooses the root by sign |
| `KeyAdmission.VerdictExactly` | scripts/evidence_host.py:71-92 | the same of the specification, for every key |
| `KeyRoots.AdmittedExactly` | scripts/evidence_host.py:71-92 | where the modulus has no zero divisors, a key is admitted exactly when a root is found, no sign is set on a zero one, and some x it decodes to gives a point of prime order |
| `KeyRoots.DecodesOnce` | scripts/evidence_host.py:71-92 | there a key decodes to one x at most |
| `KeyRoots.ModPowIsPower` | scripts/evidence_host.py:80 | the modular power is the power, reduced |
| `KeyRoots.CandidateMeets` | scripts/evidence_host.py:79-80 | the candidate x meets v*x^2 = u*(u*v^7)^((p-1)/4) modulo p |
| `KeyRoots.RootFoundExactly` | scripts/evidence_host.py:79-84 | a root is found exactly when u*(u*v^7)^((p-1)/4) is u or -u modulo p |
| `KeyAdmission.EitherRoot` | scripts/evidence_host.py:85-92 | the torsion verdict is the same for a root and for the one of the sign's parity |
| `KeyAdmission.AdmittedMeans` | scripts/evidence_host.py:71-92 | an admitted key decodes to a point on the curve, of the sign's parity, outside the small subgroup and inside the prime-order one |
| `KeyAdmission.SignIsTopBit` | scripts/evidence_host.py:75-76 | the sign is the top bit of the last byte and y is everything below it |
| `KeyAdmission.SignBitIrrelevant` | scripts/evidence_host.py:75-92 | two keys that differ only in the sign bit get one verdict, except that a set sign on a zero root is refused for it |
| `Crc16.ComputeCrc` | scripts/pzem_socket_sim.py:31-40 | the nested loop computes the checksum |
| `Crc16.RegisterIsSerial` | scripts/pzem_socket_sim.py:31-40 | the byte loop is the bit-serial shift register of the message's bits |
| `CrcDivision.CrcIsRemainder` | scripts/pzem_socket_sim.py:31-40 | the checksum is the remainder of the message, its first sixteen bits inverted and sixteen zeros after it, divided by x^16 + x^15 + x^2 + 1 |
| `Crc16.BurstDetected` | scripts/pzem_socket_sim.py:31-40 | messages of any equal length that differ only within sixteen consecutive bits have different checksums |
| `Crc16.AdjacentBytesDetected` | scripts/pzem_socket_sim.py:31-40 | so do messages that differ in one byte or in two adjacent ones |
| `Crc16.OddErrorsDetected` | scripts/pzem_socket_sim.py:31-40 | messages of one length that differ in an odd number of bits, however far apart, have different checksums |
| `Crc16.ResidueIsZero` | scripts/pzem_socket_sim.py:31-40 | a message followed by two bytes checks to zero exactly when they are its checksum, low byte first |
| `PzemFrames.TrailerMeaning` | scripts/pzem_socket_sim.py:47-50 | the trailer comparison holds exactly when the whole frame checks to zero, and exactly when the frame was sealed |
| `PzemFrames.RequestUnique` | scripts/pzem_socket_sim.py:55 | a frame is the request of one set of fields only |
| `PzemFrames.RequestLayout` | scripts/pzem_socket_sim.py:47-55 | a request byte by byte: slave, function, register and count high byte first, checksum low byte first |
| `PzemFrames.BigEndianRoundTrip` | scripts/pzem_socket_sim.py:63-66 | a packed value reads back |
| `PzemFrames.BigEndianBytes` | scripts/pzem_socket_sim.py:63-66 | a word and a double word are packed highest byte first |
| `PzemFrames.ServeRefusals` | scripts/pzem_socket_sim.py:55-68 | which refusal each fault gets, and only that fault |
| `PzemFrames.AnswerLayout` | scripts/pzem_socket_sim.py:63-71 | an answer byte by byte: slave, 3, the value's length, the value high byte first, checksum low byte first |
| `PzemFrames.Serve` | scripts/pzem_socket_sim.py:55-71 | a request is answered exactly when it is servable, and the answer checks to zero and reads back as the slave, count and value held |
| `PzemFrames.BuildResponse` | scripts/pzem_socket_sim.py:43-71 | each refusal is exact, and a request that is answered is answered as served |
| `PzemFrames.DamagedRequestRefused` | scripts/pzem_socket_sim.py:43-53 | a request damaged within sixteen consecutive bits is refused |
| `AclCodec.DecodeEncode` | ori/operator_socket.py:636-651 | decoding what was encoded gives the same entries, sorted |
| `AclCodec.EncodeDecode` | ori/operator_socket.py:636-651 | bytes that decode are reproduced exactly when they were in order |
| `AclCodec.EncodeInjective` | ori/operator_socket.py:636-640 | two lists encode alike exactly when they hold the same entries |
| `AclCodec.EncodeLayout` | ori/operator_socket.py:636-640 | version 2, then eight bytes an entry: tag, permissions and id, low byte first, ascending |
| `SearchGrant.GrantEntries` | ori/operator_socket.py:741-769 | each refusal is exact, and a grant has the old list's other entries, one operator entry and one mask |
| `SearchGrant.GrantSearch` | ori/operator_socket.py:727-773 | each refusal is exact, a platform without lists and a failing write included, and the bytes written decode to a granted list |
| `SearchGrant.OneMaskOneOperator` | ori/operator_socket.py:741-769 | afterwards there is one mask and one operator entry, both with search, and every other entry with its multiplicity |
| `SearchGrant.OthersUnchanged` | ori/operator_socket.py:755-769 | every other entry keeps its effective permission exactly when the list had a mask, or every other group-class permission lies within the owning group's with search |
| `SearchGrant.NamedGroupCapped` | ori/operator_socket.py:747-769 | on a list without a mask the mask added takes write from a named group beside an owning group that has nothing |
| `SearchGrant.AcceptableUnchanged` | ori/operator_socket.py:755-769 | on a well-formed list no other entry's effective permission changes |
| `SearchGrant.WithheldExactly` | ori/operator_socket.py:755-762 | on a well-formed list the grant is refused exactly when it would change another entry's effective permission |
| `SearchGrant.OperatorGainsSearch` | ori/operator_socket.py:741-769 | the operator's effective permission becomes the old one with search |
| `SearchGrant.GrantAgain` | ori/operator_socket.py:741-769 | a granted list is never withheld, and granting it again writes the same bytes |
| `AccessCheck.NobodyElseAffected` | ori/operator_socket.py:727-773 | on a well-formed list no access check of anyone else changes |
| `AccessCheck.FromModeSpells` | ori/operator_socket.py:741-744 | the three permissions of the list a mode stands for spell its nine bits |
| `AccessCheck.FromModeAdmits` | ori/operator_socket.py:741-744 | under the access check that list gives each class exactly its bits of the mode, read, write and search |
| `AccessCheck.WrittenOnMode` | ori/operator_socket.py:727-773 | on a directory without a list, what is written gives everyone but the operator what the mode gave, and a non-owning operator search alone |
| `AccessCheck.WrittenOnList` | ori/operator_socket.py:727-773 | on one with a well-formed list, everyone but the operator what that list gave |
| `AccessCheck.OperatorAccess` | ori/operator_socket.py:727-773 | what the operator may do afterwards, owner or not |
| `AccessCheck.GrantReachesOperator` | ori/operator_socket.py:727-773 | the grant gives search exactly when the operator is not the owner or had it already |
| `AccessCheck.OperatorLosesNothing` | ori/operator_socket.py:747-769 | every access the operator had stays, exactly when the operator owns the directory, has an entry already, or was given no more than search by its groups, or else by the entry for others |
| `AccessCheck.OwnerStaysOut` | ori/operator_socket.py:741-769 | the owner of a directory of mode 0644, made operator, still cannot search it |
| `AccessCheck.OtherLosesRead` | ori/operator_socket.py:741-769 | an operator who read a directory of mode 0744 as one of the others reads it no longer |
| `AccessCheck.ExactAclAdmits` | ori/operator_socket.py:654-664 | the exact list admits the owner and the operator with their permissions and no one else |
| `AccessCheck.CanSearchIsAccess` | ori/operator_socket.py:708-713 | on a directory without a list the mode test is the access check |
| `LoginUid.NamedBefore` | ori/operator_socket.py:477-488 | a number that names a process now named it at every earlier moment the process existed |
| `LoginUid.RecordedUidIsThePinned` | ori/operator_socket.py:469-507 | over every interleaving of exit, reap and reuse, a recorded login user ID was read while the number named the pinned process, and is that process's |
| `LoginUid.UndisturbedReads` | ori/operator_socket.py:469-507 | while the pinned process keeps its number, each line of the reader has one outcome and its login user ID is what comes back |
| `LoginUid.ParseReads` | ori/operator_socket.py:492-496 | the decimal text of a user ID, white space around it or not, reads as it, and as none exactly at 4294967295 |
| `LoginUid.ReuseWithoutRecheck` | ori/operator_socket.py:486-488 | a run in which, without the second comparison, another process's login user ID is recorded |
| `SocketProtocol.RunInv` | ori/operator_socket.py:882-898 | the invariant every state of every run keeps |
| `SocketProtocol.NothingAfterClose` | ori/operator_socket.py:882-898 | once `close` has returned nothing is running, the slot is free, and nothing ever begins |
| `SocketProtocol.NoneBeginsWhileClosing` | ori/operator_socket.py:983-993 | once the flag is set no task begins |
| `SocketProtocol.BegunExactly` | ori/operator_socket.py:983-1037 | an append begins exactly when the server is not closing, a registry operation exactly when besides the slot is free; a free slot is admitted, and released in the same stretch exactly when closing |
| `SocketProtocol.OnlyItsOwnEnd` | ori/operator_socket.py:992-997 | a begun task ends by its own completion alone: no dropped connection and no closer ends it |
| `SocketProtocol.DroppedAnywhere` | ori/operator_socket.py:983-997 | a connection can be dropped at every await, and nothing it began changes |
| `SocketProtocol.OneInFlight` | ori/operator_socket.py:1018-1037 | at most one registry operation is in flight in every run |
| `SocketProtocol.EveryAdmissionReleasedOnce` | ori/operator_socket.py:1018-1048 | each admission is matched by exactly one release, never before the operation has ended and its connection is answered or gone |
| `SocketDrains.CloseCanReturn` | ori/operator_socket.py:882-898 | from every reachable state a begun `close` can return by the server's own moves, none of them dropping a connection |
| `SocketProtocol.AwaitBetweenWouldBreak` | ori/operator_socket.py:983-993 | with an await between the check and the append a whole `close` fits in between, and an append begins after it |
| `SocketServer.OperatorSocketServer.BeginAppend` | ori/operator_socket.py:983-993 | check and append are one step of the protocol on the server's own fields |
| `SocketServer.OperatorSocketServer.BeginRegistryOperation` | ori/operator_socket.py:1018-1037 | admission, check and registration are one step of the protocol |
| `EnvExpansion.LeadingExact` | ori/config/_env.py:9 | the scan finds a placeholder exactly where one is written, and its name is the only one possible |
| `EnvExpansion.ExpandAround` | ori/config/_env.py:13-20 | a placeholder anywhere becomes the environment's text for its name, or stays as written without one; the text around it expands on its own, and neither the value nor a join is scanned again |
| `EnvExpansion.ExpandAgrees` | ori/config/_env.py:13-20 | expansion consults nothing but the names found |
| `EnvExpansion.ExpandConsults` | ori/config/_env.py:13-20 | and it consults each of them: the whole value of any name found is there in the result, what is not white space included |
| `EnvExpansion.ExpandUndefined` | ori/config/_env.py:13-20 | an environment defining none of the names leaves the text as written |
| `EnvExpansion.ScalarUndefined` | ori/config/_document.py:138-152 | then a quoted scalar stays as written, and an unquoted one that mentions a placeholder loses only the space around it |
| `EnvExpansion.ScalarAround` | ori/config/_document.py:138-152 | a scalar that holds a placeholder is substituted whole, and then stripped exactly when it is unquoted |
| `ConfigTrees.ShapeKept` | ori/config/_document.py:111-152 | at every path the expanded tree has the same kind, explicit tag, anchor and children; scalars under a key are as written and every other is the single-pass substitution |
| `ConfigLoader.BoundedLoader.ComposeNode` | ori/config/_document.py:67-99 | composing a node is the specification on the loader's fields; the key position is always restored, and the depth unless it is what refused the document |
| `ConfigLoader.BoundedLoader.ComposeScalarNode` | ori/config/_document.py:101-109 | a value scalar is expanded, a key scalar is not, and the limit is on the result |
| `ConfigLoader.BoundedLoader.ComposeSequenceNode` | ori/config/_document.py:154-160 | a sequence is its items composed in order, then counted |
| `ConfigLoader.BoundedLoader.ComposeMappingNode` | ori/config/_document.py:162-168 | a mapping is its keys and values composed in turn, then counted |
| `ConfigLimits.LimitsAreExact` | ori/config/_document.py:51-168 | composing a document succeeds exactly when it is alias-free, no anchor repeats, and depth, nodes, entries and expanded scalars are within the limits; and gives the document with its value scalars expanded |
| `ConfigPlaces.LimitsByPlace` | ori/config/_document.py:51-168 | the same place by place: nowhere a list of over 1000 items or a mapping of over 1000 keys, nowhere in the expanded document a scalar of over 4096 characters, at most 32 deep and 20000 nodes |
| `ConfigLimits.RepeatedAnchorRefused` | ori/config/_document.py:51-99 | a list of two scalars under one anchor is within every documented limit and is refused |
| `ConfigLimits.ComposeTree` | ori/config/_document.py:67-99 | the same at any point of a stream, depth and key position, with where composing stands afterwards |
| `ConfigLimits.ComposedSpells` | ori/config/_document.py:67-99 | whatever the events, composing succeeds only where they spell a tree |
| `ConfigLimits.ExpansionKeepsStructure` | ori/config/_document.py:111-152 | for every event sequence the plain composer accepts, the expanding one gives the same document with its value scalars expanded, unless one grew too long |
| `ConfigDocument.ConstructConfigMapping` | ori/config/_document.py:170-204 | the loop that fills a mapping builds the value the specification names, and builds one exactly when it does |
| `ConfigDocument.PairsExact` | ori/config/_document.py:170-204 | a mapping is built exactly when every key node is a string, no two alike, and every value is built; its keys are those strings, one for each key node, in order |
| `ConfigValues.BuiltInPlace` | ori/config/_document.py:170-226 | the document built has exactly the places of the tree: item i of a list is its child i, value i of a mapping the child after key i, and every scalar a value of its own tag and text |
| `ConfigValues.BuiltExactly` | ori/config/_document.py:170-226 | a document is built exactly when no place holds an alias, a scalar whose text does not read, a key that is not a string, or a key twice |
| `ConfigEnvironment.CollectPlaceholders` | ori/config/_document.py:391-403 | the walk collects the names in the document's strings |
| `ConfigEnvironment.PlaceholdersAreText` | ori/config/_document.py:374-403 | the placeholders of a document are the names in the value scalars that are read as strings |
| `ConfigEnvironment.TextNamesReached` | ori/config/_document.py:374-403 | those are always among the names expansion reaches, and are all of them when every scalar that mentions a name is read as a string |
| `ConfigEnvironment.NonInterferenceExactly` | ori/config/_document.py:374-403 | for every event sequence that builds without expansion, environments that agree on the placeholders always give the same document or both refuse it, exactly when every name expansion reaches is a placeholder |
| `ConfigEnvironment.Interferes` | ori/config/_document.py:101-109 | the value of any name expansion reaches can decide whether the document is admitted |
| `ConfigEnvironment.NonInterference` | ori/config/_document.py:374-403 | for untagged documents the placeholders are all the variables that can change the document |
| `ConfigEnvironment.UndefinedLeavesText` | ori/config/_document.py:374-403 | an environment defining none of the placeholders leaves every quoted scalar as written |
| `ConfigEnvironment.TaggedEscapes` | ori/config/_document.py:391-403 | a scalar tagged as something other than a string is not among the placeholders, yet the environment changes it |
| `TokenBuckets.RateBound` | ori/actions/sms.py:66-70 | in any window of T seconds of any trace, one sender has at most 5 + T/6 replies admitted and all together at most 10 + T/2 |
| `AdmissionExact.AdmissionIsExact` | ori/actions/sms.py:153-174 | every decision of every trace, in admitted counts alone: a reply is refused for its sender's rate exactly when one more would exceed 5 + T/6 in some window of T seconds ending there, for the common rate exactly when not so but 10 + T/2 would be, and otherwise by sender and length alone |
| `TokenBuckets.RefusedRepliesAreInert` | ori/actions/sms.py:153-174 | deleting a refused reply from a trace leaves every later decision as it was |
| `TokenBuckets.RefusalsCounted` | ori/actions/sms.py:153-174 | each counter is the number of replies refused for its reason |
| `ApprovalIngressObjects.BucketCell.HasToken` | ori/actions/sms.py:95-101 | asking refills the bucket in place and takes nothing |
| `ApprovalIngressObjects.ApprovalIngress.constructor` | ori/actions/sms.py:116-137 | every allowed sender has a bucket of its own, full, and no refusal is counted |
| `ApprovalIngressObjects.ApprovalIngress.Refusal` | ori/actions/sms.py:153-174 | the decision and the new state are the specification's, on buckets no two senders share |
| `ApprovalIngressObjects.ApprovalIngress.TakeLogLine` | ori/actions/sms.py:139-151 | the line and the new log are the specification's |
| `ApprovalIngressObjects.ReportsAddUp` | ori/actions/sms.py:139-151 | per reason, what was reported and what waits to be are the calls made |
| `ApprovalIngressObjects.LinesAMinuteApart` | ori/actions/sms.py:139-151 | two lines for one reason are sixty seconds apart or more |
| `ApprovalIngressObjects.LineDue` | ori/actions/sms.py:139-151 | a line is due exactly when its reason has had none or the latest is sixty seconds old, and leaves nothing waiting |
| `FirmwareCorrelations.WriteKeeps` | ori/firmware_mqtt_operator.py:249-291 | a write that is due keeps every correlation single-use |
| `FirmwareRequests.CorrelationsAreSingleUse` | ori/firmware_mqtt_operator.py:109-114 | in every run of concurrent requests a create_csr has at most one install, nothing is completed twice or used once completed, and every install's parent is a completed create_csr |
| `FirmwareRequests.NextKeeps` | ori/firmware_mqtt_operator.py:109-225 | every step between awaits keeps the invariant that only the lock's holder has work due |
| `FirmwareRequests.OneAtATime` | ori/firmware_mqtt_operator.py:113-114 | no two requests are past the lock together |
| `FirmwareRequests.InstallServed` | ori/firmware_mqtt_operator.py:144-185 | from any state in which the lock is free, an install from an open create_csr can go through, and leaves its use, its row and its parent's completion |
| `FirmwareRequests.CreateServed` | ori/firmware_mqtt_operator.py:134-142 | so can a request of its own under a new correlation, and leaves its row |
| `FirmwareRequests.ResponseServed` | ori/firmware_mqtt_operator.py:164-247 | so can the settling of an open request by a response, and leaves its use and completion |
| `FirmwareRequests.LockComesBack` | ori/firmware_mqtt_operator.py:113-114 | whoever holds the lock can fail where it stands and give it back, recording nothing |
| `FirmwareRequests.WithoutTheLock` | ori/firmware_mqtt_operator.py:109-114 | without the lock there is a run from the start in which two requests hold a signed install for one create_csr |
| `FirmwareController.Controller.LoadIssued` | ori/firmware_mqtt_operator.py:293-313 | a correlation loads exactly when it is known, open and of the expected kind; unknown or completed is stale, and open but of another kind a mismatch |
| `FirmwareController.Controller.Create` | ori/firmware_mqtt_operator.py:134-142 | a new correlation is recorded once, open |
| `FirmwareController.Controller.PrepareInstall` | ori/firmware_mqtt_operator.py:144-185 | an install is saved with its parent's completion, a refused response only completes it, and a failure records nothing |
| `FirmwareController.Controller.VerifyResponse` | ori/firmware_mqtt_operator.py:225-247 | a checked answer completes the request it answers; one that does not validate is refused as such and leaves it open |
| `ReleaseTree.IntegrityViolation` | ori/doctor.py:706-771 | the loop over a stack terminates and returns the walk's verdict: clean exactly when every entry at every path is acceptable |
| `ReleaseTree.WalkReports` | ori/doctor.py:735-771 | the verdict is the earliest fault in visiting order, stated on paths, and is raised exactly when that is a symlink whose check fails |
| `ReleaseTree.CleanIsImmutable` | ori/doctor.py:735-771 | a clean verdict, the recursive meaning and the path-by-path meaning are one |
| `ReleaseTree.UnreadableLinkRaises` | ori/doctor.py:749-757 | a release holding one symlink whose check fails gets no verdict |
| `ReleaseTree.FineIsImmutable` | ori/doctor.py:741-771 | the recursive meaning and the path-by-path meaning are one |
| `ReleaseTree.CodeIntegrity` | ori/doctor.py:774-860 | the check passes exactly in system scope with every group known and immutability established, raises exactly when the walk it reaches does, and names the walk's place, the release or the install root exactly when that is what failed |
| `ReleaseTree.ModeAllowsMeans` | ori/doctor.py:528-540 | the test on mode bits is the class's own bit of the nine, or root |
| `ReleaseTree.FirstUnsearchable` | ori/doctor.py:558-568 | returns the first component the service cannot search, or none exactly when it can search them all |
| `CoilSeam.FaithfulExactly` | ori/actions/commissioned_actuator.py:117-220 | for any driver state, exactly which calls record something other than what they drive |
| `CoilSeam.SimulatedIsRecorded` | ori/actions/relay.py:254-378 | a line simulated for want of a backend, commanded: nothing is driven and the command is recorded as executed |
| `CoilSeam.OneLevelEach` | ori/actions/commissioned_actuator.py:117-220 | on a line that is ready a call drives at most one level, the one for the coil state asked for |
| `CoilSeam.DrivenIsRecorded` | ori/actions/commissioned_actuator.py:103-220 | over every sequence of commissioned calls the levels driven are the levels of the executed actuations, in order |
| `CoilSeam.CoilStateFor` | ori/actions/commissioned_actuator.py:103-110 | an outcome resolves exactly when it is one of the two and the mapping sends it to a coil state, and then to that one |
| `CoilSeam.CallExactly` | ori/actions/commissioned_actuator.py:117-220 | for any driver state, what each call answers, drives and records: the outcome or reason asked for, the coil state, the level and the binding sequence |
| `RelayObjects.RelayAction.TakeLine` | ori/actions/relay.py:254-312 | what taking the line drives and leaves, for every way it can go |
| `RelayObjects.RelayAction.Trigger` | ori/actions/relay.py:316-378 | a latched trigger drives the energised level exactly when it reports success on a real line |
| `RelayObjects.RelayAction.Release` | ori/actions/relay.py:380-412 | the same for the de-energised level |
| `RelayObjects.CommissionedActuator.CommandCoil` | ori/actions/commissioned_actuator.py:117-141 | the driver, the pin and the records change as the specification says |
| `RelayObjects.CommissionedActuator.Command` | ori/actions/commissioned_actuator.py:143-146 | an outcome commands the coil state it is mapped to |
| `RelayObjects.CommissionedActuator.AcquireCoil` | ori/actions/commissioned_actuator.py:148-179 | the line is taken at the coil state, as one act |
| `RelayObjects.CommissionedActuator.AcquireCommanding` | ori/actions/commissioned_actuator.py:181-220 | the line is taken at the outcome's coil state, as one act |

## Left out

- EdwardsPoints.MultipleIsPower: associativity of the curve's group is a hypothesis, not a theorem here; addition keeping the curve's equations is proved.
- KeyRoots.AdmittedExactly: takes as a hypothesis that the modulus has no zero divisors; that 2^255 - 19 is prime, and so that a key refused as off the curve has no root at all, is not part of this model (`KeyRoots.RootFoundExactly` says exactly which are).
- KeyAdmission.AdmittedMeans: one direction, without that hypothesis.
- PzemFrames.Serve: takes the register value already divided and rounded, since the floating-point step is not modelled.
- LoginUid.RecordedUidIsThePinned: a failed open or read is a step that returns nothing; the reasons for failure are not told apart.
- SearchGrant.GrantSearch: why the file system refuses a read or a write is not told apart; the directory's own lstat is taken to succeed.
- SocketDrains.CloseCanReturn: says a way out exists, not that it is taken; that the listener stops, that an answer fits the transport's buffer and that begun store calls end are what its steps stand for, and an event loop torn down under its tasks is not modelled.
- ConfigComposer.ComposeNode: PyYAML's own composer is modelled by the calls it makes of these methods, from parser events; lexing, parsing and the stream's end are not part of this model.
- ConfigDocument.Construct: explicit tags on collections, merge keys and the `=` key are not modelled; how a scalar's tag and text resolve to a value is a parameter.
- ConfigDocument.ConstructConfigMapping: which refusal comes first is not claimed; PyYAML builds the items of a sequence after the mapping that holds it.
- ConfigTrees.ShapeKept: the tag an unquoted scalar resolves to may change with its text, as the source intends; the tag kept is the explicit one.
- TokenBuckets.RateBound: over real numbers and a clock that does not go back; rounding of floating-point tokens is not modelled.
- FirmwareRequests.CorrelationsAreSingleUse: the store is its atomic calls, without the unique index that would also stop a second child; a task cancelled while its write is at the store, which only an event loop being torn down does, is not modelled.
- FirmwareController.Controller: what the workflow and the field checks decide are parameters; signatures, certificates and the public answer's fields are not part of this model.
- ReleaseTree.IntegrityViolation: the tree does not change under the walk, and positions in a sorted listing stand for names; the installer's symlink rule is an answer the tree carries.
- CoilSeam.DrivenIsRecorded: covers commissioned calls and surrendering the line; `connect`, which drives the line without an actuation, and a timed trigger are outside the commissioned seam.
- Socket accounting beyond the slot and the append set: request parsing, authentication and the answers' fields.
- The socket file's handover between two runtimes, which is best effort by design.
- File admission and size caps of configuration documents, and the section parsers after them: one-branch checks.
- The doctor's other reports, the device-lifecycle scenarios, release scripts and every transport.
