# RUSTEE in Dafny

A model of the core of RUSTEE, a trusted operating system for GlobalPlatform trusted
applications, with machine-checked proofs of what it computes and keeps. `dafny verify
dfyconfig.toml` covers the whole project.

Six components are modelled, each in the form its code has: what the code updates in place
is a class or an array method here, proved equal to a function on values; what must hold of
that function, over all inputs or all runs, is a lemma.

- **Big integers** (`BigInt*.dfy`, `RestoringDivision.dfy`, `Euclid.dfy`, `IntMath.dfy`).
  The limb loops of the TEE arithmetic library, from carry chains to the extended Euclidean
  algorithm, modular exponentiation and the primality test, against integer arithmetic. The
  number theory they need (Bezout, Fermat's little theorem, square and multiply, division
  with shifts cut short) is proved from the ground up.
- **Kernel** (`KernelModel.dfy`, `KernelSafety.dfy`, `KernelRuns.dfy`, `KernelAnswers.dfy`,
  `KernelLeaks.dfy`, `SlotTable.dfy`, `Kernel.dfy`). Sessions and instances of trusted
  applications as a state machine. Entry points of trusted applications return or panic as
  the environment decides. Every run is proved to follow the life cycle of every instance,
  every answer is stated from the tables before the command, and what a failed open leaves
  behind is stated exactly.
- **Yielding calls** (`Bytes.dfy`, `Pdu.dfy`, `Protocol.dfy`, `ProtocolSafety.dfy`,
  `GuestAnswers.dfy`, `Guest.dfy`, `Host.dfy`). Host and guest exchange PDUs over two
  first-in first-out byte channels whose packets split the bytes anywhere. On top of it, the
  protocol with the kernel behind the guest (`YieldingCalls.dfy`), loading an application
  image from the host end to end (`Msg.dfy`, `HexText.dfy`, `LoadTa.dfy`, `LoadTaRun.dfy`),
  and the host's own receive loop as a run of the protocol (`HostRuns.dfy`).
- **Virtqueue** (`Virtqueue.dfy`, `VirtqueueSafety.dfy`, `Virtq.dfy`). Driver and device
  share descriptors and two rings through wrapping 16-bit indices. The driver's fill and its
  index update are separate steps, and the device steps in between as it likes.
- **Storage** (`RpcFs.dfy`, `Directory.dfy`, `Sealed.dfy`, `ObjectStore.dfy`,
  `StoreRuns.dfy`, `StoreCreate.dfy`, `ReeFs.dfy`). Whole files over chunked calls, and
  encrypted objects with a directory over whole files, against a plain map, with what is
  accepted stated exactly. Ciphers, keys and authentication codes are parameters with their
  inverse laws.
- **Cipher modes** (`CipherModes.dfy`). Chaining and counter mode over any block cipher.

Six properties one would expect turned out false of the code. The model keeps the code as
it is and proves exactly when it does meet them.

- Division is exact if and only if no shift of the divisor runs out of the 128-limb scratch
  space (`BigIntDivide.QuotientExact`, `BigIntDivide.RemainderExact`). Dividends of at most
  127 limbs are always safe; 2^4095 divided by 1 is not.
- Modular exponentiation is safe for every residue if and only if the modulus has at most
  64 limbs, that is, 2048 bits (`BigIntModular.ModulusExact`).
- Addition of magnitudes writes nothing unless the destination has room for a carry limb,
  even if the sum would fit (`BigInt.Add`).
- The modular inverse inverts the operand's magnitude, so for a negative operand it inverts
  the operand itself only modulo 2.
- Creating an object keeps all objects readable if and only if the directory was empty. A
  rename always makes an object unreadable: the first of the others, or the renamed object
  itself if there is no other. Unless a file id of zeros is in use, an object renamed to an
  id not in use is lost too.
- The supplicant hands an image over whole if and only if the request has a second
  parameter, as the guest's own requests have, or the image happens to begin like one: the
  parameter that the answer adds is written over the image (`LoadTa.ImageWholeIff`).

Where the directory's comments speak of a parallel list of files, the code pairs the first
listed file with the newest object; the model follows the code.

## Model

| member | source | states |
|---|---|---|
| `BigIntRep.CanonicalUnique` | crates/rustee-crypto/src/arith.rs:28-58 | canonical words of equal value agree in sign, count and limbs: the representation is unique |
| `BigInt.Trim` | crates/rustee-crypto/src/arith.rs:49-58 | leading zero limbs go, zero loses its sign, the magnitude stays |
| `BigInt.FromS32` | crates/rustee-crypto/src/arith.rs:78-91 | the canonical number of every 32-bit integer, the most negative one included |
| `BigIntOctets.FromOctets` | crates/rustee-crypto/src/arith.rs:105-128 | the number whose octets, most significant first, are given; refused exactly when its limbs do not fit |
| `BigIntOctets.ToOctets` | crates/rustee-crypto/src/arith.rs:130-148 | the shortest octet string of the magnitude, the rest of the buffer untouched; a short buffer means the number does not fit it |
| `BigIntOctets.ShortestUnique` | crates/rustee-crypto/src/arith.rs:105-148 | octet strings without leading zeros are equal when their numbers are, so writing what was read restores it |
| `BigInt.Assign` | crates/rustee-crypto/src/arith.rs:195-201 | words are copied as far as they fit and the rest cleared; value and canonical form survive if the limbs fit |
| `BigInt.AssignAbs` | crates/rustee-crypto/src/arith.rs:203-206 | the magnitude with a positive sign |
| `BigInt.CmpMag` | crates/rustee-crypto/src/arith.rs:167-187 | the order of the magnitudes |
| `BigInt.Cmp` | crates/rustee-crypto/src/arith.rs:150-165 | the order of the signed values |
| `BigInt.AddMag` | crates/rustee-crypto/src/arith.rs:280-299 | the carry chain adds magnitudes; it refuses, writing nothing, exactly when there is no room for a carry limb |
| `BigInt.SubMag` | crates/rustee-crypto/src/arith.rs:301-322 | the borrow chain subtracts a smaller magnitude |
| `BigInt.Add` | crates/rustee-crypto/src/arith.rs:324-346 | signed addition exactly when the carry limb has room; otherwise the limbs stay as they were |
| `BigInt.AddDropsSumThatFits` | crates/rustee-crypto/src/arith.rs:324-346 | 1 + 1 into a single limb is dropped although 2 would fit |
| `BigInt.Sub` | crates/rustee-crypto/src/arith.rs:348-355 | signed subtraction under the same condition |
| `BigInt.MulRow` | crates/rustee-crypto/src/arith.rs:357-375 | one row of the product: the accumulator never overflows 64 bits and the row adds limb times operand at its weight |
| `BigInt.Mul` | crates/rustee-crypto/src/arith.rs:357-375 | the signed product exactly when it fits the destination; a product too long leaves an ill-formed number |
| `BigIntDiv.GetBit` | crates/rustee-crypto/src/arith.rs:217-224 | the bit of the magnitude |
| `BigIntDiv.GetBitCount` | crates/rustee-crypto/src/arith.rs:226-233 | the number of significant bits of the magnitude |
| `BigIntDiv.SetBit` | crates/rustee-crypto/src/arith.rs:235-249 | with a true value: sets one bit of the magnitude and grows the limb count; a bit beyond the buffer is dropped |
| `BigIntDiv.ClearBit` | crates/rustee-crypto/src/arith.rs:235-249 | with a false value: takes the weight of the bit away if it was set, and leading zeros go |
| `BigIntDiv.OneBit` | crates/rustee-crypto/src/arith.rs:235-249 | setting or clearing a bit changes exactly that bit of the number |
| `BigIntDiv.ShlWords` | crates/rustee-crypto/src/arith.rs:421-453 | multiplies by a power of two exactly when its capacity guard passes, and otherwise changes nothing |
| `RestoringDivision.Step` | crates/rustee-crypto/src/arith.rs:398-414 | one position of the quotient loop keeps the division invariant even when the shift was cut short |
| `RestoringDivision.Finish` | crates/rustee-crypto/src/arith.rs:385-419 | after the loop: quotient exact iff no shift was cut short, remainder in range iff the stated bound holds, always a residue |
| `BigIntDivide.DivMag` | crates/rustee-crypto/src/arith.rs:398-414 | the quotient loop meets both conditions exactly |
| `BigIntDivide.Div` | crates/rustee-crypto/src/arith.rs:385-419 | truncated division: canonical results, remainder with the dividend's sign, quotient and remainder right iff their conditions hold; zero results for a zero divisor; a dividend that does not fit the remainder is cut off and the quotient zero |
| `BigIntDivide.ShortDividend` | crates/rustee-crypto/src/arith.rs:385-419 | a dividend of at most 127 limbs never has a shift cut short |
| `BigIntDivide.LongDividend` | crates/rustee-crypto/src/arith.rs:385-419 | 2^4095 divided by 1 leaves neither result exact |
| `BigIntModular.ShortDivision` | crates/rustee-crypto/src/arith.rs:385-419 | for dividends of at most 127 limbs division is truncated integer division in full |
| `BigIntModular.Modulo` | crates/rustee-crypto/src/arith.rs:455-465 | the least non-negative residue of an operand of either sign whenever the remainder is exact, and for operands that are not negative only then; a zero modulus gives zero and an operand longer than the destination is cut off |
| `BigIntModular.MulMod` | crates/rustee-crypto/src/arith.rs:479-483 | the residue of a product under the same condition; the destination is ill-formed exactly when the product does not fit it |
| `BigIntModular.ModulusExact` | crates/rustee-crypto/src/arith.rs:503-520 | all products of residues reduce exactly iff the modulus has at most 64 limbs |
| `BigIntModular.LongModulus` | crates/rustee-crypto/src/arith.rs:503-520 | for a longer modulus the square of its largest residue leaves a remainder out of range |
| `BigIntModular.PowRound` | crates/rustee-crypto/src/arith.rs:503-520 | one round of square and multiply keeps result times base to the rest congruent to the power |
| `BigIntModular.ExpMod` | crates/rustee-crypto/src/arith.rs:503-520 | op to the |exp| modulo n, in range, for n of 2 to 2048 bits and op of either sign that reduces exactly, as every one of at most 127 limbs does |
| `BigIntGcd.EuclidRound` | crates/rustee-crypto/src/arith.rs:532-573 | one round keeps the Bezout identities, the alternating signs and the cofactor bounds, and the remainder falls |
| `BigIntGcd.ComputeExtendedGcd` | crates/rustee-crypto/src/arith.rs:532-573 | terminates with the gcd of the magnitudes, its Bezout cofactors and their bounds, so no scratch buffer truncates |
| `BigIntGcd.InvMod` | crates/rustee-crypto/src/arith.rs:489-501 | 0 iff there is no inverse, otherwise the inverse of the magnitude in range; of the operand itself iff it is not negative or n is 2 |
| `BigIntGcd.InverseUnique` | crates/rustee-crypto/src/arith.rs:489-501 | an inverse in range is unique |
| `BigIntGcd.RelativePrime` | crates/rustee-crypto/src/arith.rs:522-530 | true iff the gcd of the magnitudes is 1 |
| `IntMath.Fermat` | crates/rustee-crypto/src/arith.rs:575-612 | Fermat's little theorem, on which the primality test rests |
| `BigIntGcd.PrimesPass` | crates/rustee-crypto/src/arith.rs:575-612 | no prime fails the test, at any number of rounds |
| `BigIntGcd.Pseudoprime` | crates/rustee-crypto/src/arith.rs:575-612 | at the lowest confidence the composite 341 passes |
| `BigIntGcd.PseudoprimeFound` | crates/rustee-crypto/src/arith.rs:575-612 | base 3 leaves 56, so 341 is rejected at every confidence of 2 and more |
| `BigIntGcd.IsProbablePrime` | crates/rustee-crypto/src/arith.rs:575-612 | 1 iff the value is 2, or odd, larger and passes Fermat's test to every base from 2 to 9 that is smaller than it and is 2 or at most the confidence plus one; otherwise 0. Every prime gets 1 |
| `SlotTable.Table.Alloc` | crates/rustee-os/src/session.rs:43-54 | the lowest empty slot takes the item under the next id; an id is used up even when the table is full, and ids wrap around |
| `SlotTable.Table.Get` | crates/rustee-os/src/session.rs:56-59 | exactly the item stored under the id |
| `SlotTable.Table.Take` | crates/rustee-os/src/session.rs:65-72 | removes exactly that id |
| `SlotTable.ContentSize` | crates/rustee-os/src/session.rs:37-54 | a table is full iff it holds as many items as slots |
| `KernelObject.PoisonInstance` | crates/rustee-os/src/session.rs:74-81 | every session of the instance becomes dead and no other changes |
| `KernelObject.FindLiveSingle` | crates/rustee-os/src/instance.rs:37-45 | a live single instance of the UUID if there is one |
| `KernelSafety.PanicKeeps` | crates/rustee-os/src/lib.rs:167-178 | a panic inside one instance keeps the kernel invariant |
| `KernelSafety.BindKeeps` | crates/rustee-os/src/lib.rs:419-468 | opening a session in a live instance calls it in order and keeps the invariant, whatever the entry answers |
| `KernelSafety.InstantiateKeeps` | crates/rustee-os/src/lib.rs:370-417 | creating an instance and its first session keeps the invariant, failures and panics included |
| `KernelSafety.OpenKeeps` | crates/rustee-os/src/lib.rs:328-368 | opening a user session, directly or by yielding for the image, keeps the invariant |
| `KernelSafety.ResumeKeeps` | crates/rustee-os/src/lib.rs:596-641 | resuming an open with the image keeps the invariant |
| `KernelSafety.InvokeKeeps` | crates/rustee-os/src/lib.rs:470-541 | invoking a session keeps the invariant |
| `KernelSafety.CloseKeeps` | crates/rustee-os/src/lib.rs:543-594 | closing a session, destroying an instance that is no longer needed, keeps the invariant |
| `KernelRuns.HandleKeeps` | crates/rustee-os/src/lib.rs:118-149 | every command answers, makes only calls the life cycle allows and keeps the invariant |
| `KernelRuns.IdsUsed` | crates/rustee-os/src/session.rs:43-54 | only opens and completions use up ids, so the ids suffice for 2^32 - 2 of them, however many invokes, closes and cancellations come between |
| `KernelRuns.RunKeeps` | crates/rustee-os/src/lib.rs:118-594 | so does every run that uses up fewer than 2^32 - 1 ids of each kind |
| `KernelRuns.RunTables` | crates/rustee-os/src/lib.rs:328-594 | between commands of every run: live instances are unlocked and count their sessions, sessions live and die with their instance, single-session instances hold at most one session, no UUID has two live single instances |
| `KernelRuns.RunLifeCycle` | crates/rustee-os/src/lib.rs:370-594 | in every run each call into an instance is preceded by its create, each invoke and close by an open of that session not closed since, destroy comes only with no recorded session open, and nothing follows destroy, a failed create or a panic |
| `KernelRuns.NothingAfterEnd` | crates/rustee-os/src/lib.rs:167-200 | after its last call an instance is never called again |
| `KernelRuns.OpenSessions` | crates/rustee-os/src/lib.rs:419-594 | the sessions an instance knows are exactly those opened and not closed |
| `KernelRuns.PanicIsolated` | crates/rustee-os/src/lib.rs:167-178 | after a panic that instance and its sessions are dead and nothing else has changed |
| `KernelRuns.DeadForever` | crates/rustee-os/src/lib.rs:184-200 | a panicked instance stays dead and locked for the rest of every run |
| `KernelRuns.PendingStep` | crates/rustee-os/src/lib.rs:328-368 | a command waits exactly when it requests an image, and only a completion ends the wait |
| `KernelRuns.RequestsResumed` | crates/rustee-os/src/lib.rs:596-641 | in every run requests and completions are one to one, but for the request still waiting |
| `KernelRuns.OpenYields` | crates/rustee-os/src/lib.rs:285-326 | a successful open, direct or resumed, adds one live session of the UUID asked for |
| `KernelRuns.InvokeReaches` | crates/rustee-os/src/lib.rs:470-541 | an invoke reaches the entry of a live instance of the session's own UUID and answers what it returned |
| `KernelRuns.ClosedIsGone` | crates/rustee-os/src/lib.rs:543-594 | a closed session is gone and later uses of it fail |
| `KernelAnswers.OpenLive` | crates/rustee-os/src/lib.rs:328-347 | an open of an application with a live single instance answers busy iff it is not multi-session and has a session; otherwise the entry point is called once, if the parameters map, and its answer, the session and the session count follow from it |
| `KernelAnswers.OpenSucceedsIff` | crates/rustee-os/src/lib.rs:328-347 | such an open succeeds iff a session may be added, a slot is free and the entry point, if any, can be called and accepts |
| `KernelAnswers.OpenNew` | crates/rustee-os/src/lib.rs:348-417 | without one: an early application is created and opened, in this order, and a failure at any point leaves what is stated; any other application's image is requested, unless an open waits already |
| `KernelAnswers.OpenPtaAnswer` | crates/rustee-os/src/lib.rs:285-326 | a privileged application's open is its own answer, recorded iff there is room |
| `KernelAnswers.ResumeAnswer` | crates/rustee-os/src/lib.rs:596-641 | a completion ends the wait and answers by the first of seven conditions; only a loaded and mapped image of the UUID asked for is created and opened |
| `KernelAnswers.InvokeAnswer` | crates/rustee-os/src/lib.rs:470-541 | which error an invoke answers, when the entry point is called, and that nothing but the instance's lock, address space or death can change |
| `KernelAnswers.CloseAnswer` | crates/rustee-os/src/lib.rs:543-594 | the session is gone whatever the answer; the instance is called and, with its last session and unless kept alive, destroyed; a session of a panicked instance answers busy |
| `KernelAnswers.CancelledIff` | crates/rustee-os/src/lib.rs:141-182 | after every run an id is cancelled iff a command of the run cancelled it |
| `KernelAnswers.CancelledForever` | crates/rustee-os/src/lib.rs:141-182 | in every run opens, invokes and completions under an id cancelled before answer cancelled, without a call or a change to the tables |
| `KernelLeaks.AcceptedOpens` | crates/rustee-os/src/lib.rs:455-466 | a session that an application accepted is lost iff 32 sessions exist already: the caller is told so and nothing records it |
| `KernelLeaks.StrandedIff` | crates/rustee-os/src/lib.rs:370-468 | a new instance stays live without a session iff its application is not single-instance, its creation succeeded and its first open failed |
| `KernelLeaks.StrandedForever` | crates/rustee-os/src/lib.rs:328-594 | in every run such an instance is never opened, called or destroyed again |
| `KernelObject.Kernel.OnTaPanic` | crates/rustee-os/src/lib.rs:167-178 | the panic handler's state change, the instance staying locked |
| `KernelObject.Kernel.LockInstance` | crates/rustee-os/src/lib.rs:184-194 | locks a live idle instance, or says which error applies |
| `KernelObject.Kernel.UnlockInstance` | crates/rustee-os/src/lib.rs:196-200 | unlocks the instance if it is still there |
| `KernelObject.Kernel.MapParams` | crates/rustee-os/src/lib.rs:210-255 | what becomes of the address space when mapping parameters fails |
| `KernelObject.Kernel.BindSession` | crates/rustee-os/src/lib.rs:419-468 | is the model's bind step, panics included |
| `KernelObject.Kernel.InstantiateAndBind` | crates/rustee-os/src/lib.rs:370-417 | is the model's instantiate step |
| `KernelObject.Kernel.OpenUserSession` | crates/rustee-os/src/lib.rs:328-368 | is the model's open step for user applications, whose answers `KernelAnswers.OpenLive` and `KernelAnswers.OpenNew` state from the tables |
| `KernelObject.Kernel.OpenCommand` | crates/rustee-os/src/lib.rs:285-326 | is the model's open command |
| `KernelObject.Kernel.InvokeCommand` | crates/rustee-os/src/lib.rs:470-541 | is the model's invoke command |
| `KernelObject.Kernel.CloseCommand` | crates/rustee-os/src/lib.rs:543-594 | is the model's close command |
| `KernelObject.Kernel.RpcCompleted` | crates/rustee-os/src/lib.rs:596-641 | is the model's resume step |
| `KernelObject.Kernel.HandleCommand` | crates/rustee-os/src/lib.rs:118-178 | one command of the mutable kernel is one step of the model |
| `KernelObject.Kernel.Serve` | crates/rustee-os/src/lib.rs:118-149 | any number of commands is the model's run, so what is proved of runs holds of the object |
| `Bytes.LeDigit` | crates/rustee-proto/src/lib.rs:255-289 | byte i of a little-endian number is its digit of weight 256^i |
| `Bytes.BeDigit` | guest/rustee-guest/src/proto_cmd.rs:53-65 | byte i from the end of a big-endian number is its digit of weight 256^i |
| `Pdu.HeaderRoundTrip` | crates/rustee-hal-virt/src/lib.rs:70-95 | four little-endian words; a header of a kind from 1 to 4 decodes to itself, any other is refused |
| `Pdu.FrameRoundTrip` | crates/rustee-hal-virt/src/lib.rs:97-117 | a call frame decodes to itself |
| `Pdu.CookieRoundTrip` | crates/rustee-proto/src/lib.rs:141-156 | the cookie survives its split into two registers |
| `Pdu.TakeFirst` | crates/rustee-hal-virt/src/vsock.rs:177-196 | a buffer beginning like a valid PDU yields that PDU as soon as it is whole, and nothing before |
| `Pdu.TakeSound` | crates/rustee-hal-virt/src/vsock.rs:177-196 | what is taken and what is left are together the bytes that were there |
| `Pdu.TakeRejects` | crates/rustee-hal-virt/src/vsock.rs:177-196 | a header of an unknown kind or with another frame length is refused |
| `Pdu.Reassembly` | crates/rustee-hal-virt/src/vsock.rs:153-196 | for every list of PDUs, every split into packets and every interleaving of arrivals and takes, exactly the list comes out, in order |
| `Pdu.VsockConn.PushRw` | crates/rustee-hal-virt/src/vsock.rs:153-165 | a packet for this connection is appended and counted; any other changes nothing |
| `Pdu.VsockConn.TakeOne` | crates/rustee-hal-virt/src/vsock.rs:177-196 | takes the first PDU if it is whole and drains nothing otherwise |
| `ProtocolSafety.EnterKeeps` | crates/gp-client/src/wire.rs:95-109 | an enter keeps the protocol invariant, also when its window is out of bounds |
| `ProtocolSafety.PacketKeeps` | guest/rustee-guest/src/main.rs:118-330 | a packet to the guest keeps the invariant: ENTER arrives only when idle, RPC_REPLY only while waiting |
| `ProtocolSafety.BrokenPacketKeeps` | guest/rustee-guest/src/main.rs:118-202 | packets of a PDU the host gave up on never halt the guest |
| `ProtocolSafety.ReadKeeps` | crates/gp-client/src/wire.rs:110-143 | a turn of the host's receive loop keeps the invariant |
| `ProtocolSafety.RunKeeps` | crates/gp-client/src/wire.rs:46-143 | so does every run |
| `ProtocolSafety.ProtocolSafe` | crates/rustee-hal-virt/src/lib.rs:128-185 | in every run at most one PDU is under way, the guest never halts, enters are numbered consecutively, every return is its own enter's COMPLETE with its sequence number, frame and window length, and the windows of host and guest are equal on return |
| `ProtocolSafety.EnterDelivers` | guest/rustee-guest/src/main.rs:118-235 | in every run the request under way to an idle guest passes its gate with its own sequence number, and the guest starts from the host's own window |
| `ProtocolSafety.NeverStuck` | crates/gp-client/src/wire.rs:110-143 | while an enter is in progress the guest can get a packet or the host a whole PDU |
| `ProtocolSafety.CanReturn` | crates/gp-client/src/wire.rs:95-143 | every run with a call in progress can be continued so that the call returns |
| `YieldingCalls.TurnPending` | crates/rustee-os/src/lib.rs:596-641 | with the kernel behind the guest: an ENTER asks for an image only if none is awaited, and a reply never asks again |
| `YieldingCalls.RunKeeps` | guest/rustee-guest/src/main.rs:118-330 | in every run the guest waits for a reply exactly while the kernel holds a waiting open |
| `YieldingCalls.CallsReturn` | crates/gp-client/src/wire.rs:95-143 | in every run a call makes at most one RPC, and while it is in progress a step is possible but only boundedly many happen: every run in which both sides keep stepping returns from it |
| `GuestObject.VirtHal.CopyBounceIn` | crates/rustee-hal-virt/src/lib.rs:322-332 | the window is overwritten if it lies in the pool |
| `GuestObject.VirtHal.FeedPdu` | crates/rustee-hal-virt/src/lib.rs:334-344 | bounce into the pool, header and frame into the gate, or nothing |
| `GuestObject.VirtHal.Recv` | crates/rustee-hal-virt/src/lib.rs:129-143 | hands out an ENTER and remembers its sequence number and window; refuses while yielding |
| `GuestObject.VirtHal.RpcYield` | crates/rustee-hal-virt/src/lib.rs:163-184 | queues the request and waits, unless the reply is already there |
| `GuestObject.VirtHal.TakeTx` | crates/rustee-hal-virt/src/lib.rs:346-356 | the queued PDU with the current window of the pool |
| `GuestObject.VirtHal.RecvEnter` | crates/rustee-hal-virt/src/lib.rs:420-427 | is the model's gate for an expected ENTER |
| `GuestObject.VirtHal.RecvRpcReply` | crates/rustee-hal-virt/src/lib.rs:441-455 | is the model's gate for an expected RPC_REPLY and restores the ENTER's window |
| `GuestObject.VirtHal.CompleteStream` | crates/rustee-hal-virt/src/lib.rs:467-474 | the bytes of the COMPLETE for the current window |
| `GuestObject.VirtHal.SendLoadTa` | guest/rustee-guest/src/main.rs:308-330 | the bytes of the request, the window moved and saved |
| `GuestObject.Loop.DispatchOut` | guest/rustee-guest/src/main.rs:264-306 | is the model's dispatch after a command |
| `GuestObject.Loop.OnRw` | guest/rustee-guest/src/main.rs:118-202 | one packet changes the guest's objects as the model's packet step does |
| `GuestAnswers.EnterAnswered` | guest/rustee-guest/src/main.rs:118-235 | an ENTER in the pool that the kernel finishes is answered by COMPLETE with its own number, frame and window; one that needs an image by an RPC with the 96 bytes at 0x80_0000, its window kept for later |
| `GuestAnswers.EnterDropped` | guest/rustee-guest/src/main.rs:118-202 | anything else between commands is dropped and counted; if it lies in the pool its bounce bytes are in the pool already |
| `GuestAnswers.ReplyAnswered` | guest/rustee-guest/src/main.rs:238-306 | an RPC_REPLY in the pool resumes the command, whose COMPLETE has the number, frame and window of the ENTER, wherever the reply was |
| `GuestAnswers.ReplyHalts` | guest/rustee-guest/src/main.rs:118-202 | anything else while a command waits halts the guest with nothing copied |
| `GuestAnswers.PacketWaits` | guest/rustee-guest/src/main.rs:118-202 | less than a whole PDU changes only the buffer |
| `GuestAnswers.PacketRejected` | guest/rustee-guest/src/main.rs:118-202 | bytes that cannot be a PDU stay in the buffer, each packet counting a drop or halting a guest that waits |
| `HostObject.StreamTransport.SendPdu` | crates/gp-client/src/wire.rs:46-64 | header and frame are sent before the window is found out of bounds |
| `HostObject.ReadTakes` | crates/gp-client/src/wire.rs:66-83 | the host reads the PDU its stream starts with if its window lies in the pool; otherwise header and frame are gone and the window is left |
| `HostObject.StreamTransport.ReadOne` | crates/gp-client/src/wire.rs:66-83 | header, frame and window one after the other, each only if all before it is in order |
| `HostObject.StreamTransport.Turn` | crates/gp-client/src/wire.rs:110-143 | one turn of the receive loop is one step of the model, whose exchanges `HostRuns.DirectExchange` and `HostRuns.RpcExchange` state byte by byte |
| `HostObject.StreamTransport.Enter` | crates/gp-client/src/wire.rs:95-143 | busy while a call is open; otherwise sends the request and serves turns until COMPLETE, an error leaving the transport busy unless a PDU of the wrong kind came |
| `HostRuns.DirectExchange` | crates/gp-client/src/wire.rs:110-143 | a stream that begins with a COMPLETE: its frame is returned, its window is in the pool, nothing is sent, and what follows stays unread |
| `HostRuns.RpcExchange` | crates/gp-client/src/wire.rs:110-143 | a request and then a COMPLETE: the hook sees the request's bytes in the pool at its cookie, exactly one RPC_REPLY with the request's number and the hook's window is sent, and the COMPLETE is returned |
| `HostRuns.FailedExchange` | crates/gp-client/src/wire.rs:110-143 | no readable PDU leaves the transport busy; a PDU of the wrong kind frees it; both return an error and send nothing |
| `HostRuns.EnterIsRun` | crates/gp-client/src/wire.rs:95-143 | in every run of the protocol an enter of the object sends, reads and returns what the run up to its return does: its own frame, with both windows equal |
| `HostRuns.SupplicantLoads` | crates/gp-client/src/wire.rs:120-135 | in every run in which the supplicant is the hook, the reply to a request gives the guest exactly the named file of at most 2 MiB, or an error |
| `Msg.HeaderRoundTrip` | crates/rustee-proto/src/lib.rs:255-289 | eight little-endian words that decode to the header |
| `Msg.ParamRoundTrip` | crates/rustee-proto/src/lib.rs:292-314 | four little-endian double words that decode to the parameter |
| `Msg.MsgRoundTrip` | crates/rustee-proto/src/lib.rs:340-390 | a message written at any aligned cookie is read back, whatever else the pool holds |
| `Msg.PutMsg` | crates/rustee-proto/src/lib.rs:340-363 | header and parameters in place, nothing on an error |
| `Msg.ReadMsg` | crates/rustee-proto/src/lib.rs:368-390 | the message at the cookie, its parameters padded to six |
| `LoadTa.UuidRoundTrip` | guest/rustee-guest/src/proto_cmd.rs:53-65 | the client's 16 bytes are two words, most significant first, and the guest gets them back |
| `LoadTa.FileNameOfUuid` | guest/rustee-guest/src/proto_cmd.rs:67-77 | the supplicant's file name is the hexadecimal text of those 16 bytes |
| `HexText.HexDigits` | guest/rustee-guest/src/proto_cmd.rs:67-77 | two lower-case digits per byte, the higher one first |
| `LoadTa.PackLoadTa` | guest/rustee-guest/src/proto_cmd.rs:81-98 | the request lies at its cookie and the rest of the pool is unchanged |
| `LoadTa.Delivered` | host/rustee-supplicant/src/lib.rs:161-194 | a file that fits follows the rewritten message |
| `LoadTa.HandOverIs` | host/rustee-supplicant/src/lib.rs:156-194 | for every readable request: the image lies behind the message, the length answered reaches to its end, and it is whole if the request has a second parameter |
| `LoadTa.ImageWholeIff` | host/rustee-supplicant/src/lib.rs:156-194 | it is whole iff the request has a second parameter or begins like the one that the answer adds |
| `LoadTa.ElfOverwritten` | host/rustee-supplicant/src/lib.rs:156-194 | an ELF image is never whole if the request has one parameter |
| `LoadTa.Refused` | crates/gp-client/src/wire.rs:85-92 | without a file, or with too large a one, the request comes back with a nonzero ret |
| `LoadTa.LoadTaEndToEnd` | guest/rustee-guest/src/proto_cmd.rs:81-116 | for every UUID and all pools the guest takes exactly the named file if it exists and has at most 2 MiB, and otherwise an error code |
| `LoadTaRun.ReplyCarriesImage` | guest/rustee-guest/src/main.rs:238-262 | in every run the reply that reaches the waiting guest passes its gate and gives it that file or error |
| `LoadTa.ServedInPlace` | host/rustee-supplicant/src/lib.rs:142-211 | the time and file operations answer in place: same header and size, nothing around the message changed, and of the first parameter only seconds and nanoseconds, or the descriptor of a file that was opened or created; everything else is refused |
| `HostObject.HandleMsg` | host/rustee-supplicant/src/lib.rs:142-211 | the supplicant in place on the bounce buffer, for every message |
| `HostObject.HandleLoad` | host/rustee-supplicant/src/lib.rs:160-194 | its LOAD_TA branch |
| `HostObject.StampRpcRet` | crates/gp-client/src/wire.rs:85-92 | a failed request gets a nonzero ret in its message |
| `HostObject.ServeRpc` | host/rustee-supplicant/src/lib.rs:253-259 | the hook's answer, failures stamped |
| `VirtqueueSafety.SameIndex` | guest/rustee-guest/src/virtio.rs:282-290 | wrapped 16-bit indices are equal iff the true counts are |
| `VirtqueueSafety.FillKeeps` | guest/rustee-guest/src/virtio.rs:249-281 | filling a free id's descriptor and the next ring slot keeps the invariant: nothing handed over is overwritten |
| `VirtqueueSafety.BumpKeeps` | guest/rustee-guest/src/virtio.rs:266-281 | making it available keeps the invariant |
| `VirtqueueSafety.PollKeeps` | guest/rustee-guest/src/virtio.rs:282-294 | polling frees exactly the id that came back |
| `VirtqueueSafety.TakeKeeps` | guest/rustee-guest/src/virtio.rs:266-281 | what the device takes is what was made available |
| `VirtqueueSafety.GiveKeeps` | guest/rustee-guest/src/virtio.rs:282-294 | the device may give back in any order |
| `VirtqueueSafety.QueueSafe` | guest/rustee-guest/src/virtio.rs:212-295 | in every run, however often the indices wrap: each id is free or in exactly one place, at most 16 are out, index comparison is exact, the device takes exactly what was sent in order, and what it holds is unchanged with its owned buffer |
| `VirtqObject.Virtq.PollUsed` | guest/rustee-guest/src/virtio.rs:282-294 | frees the oldest returned descriptor, or reports that there is none |
| `VirtqObject.Virtq.RecycleUsed` | guest/rustee-guest/src/virtio.rs:218-220 | terminates with everything returned freed and nothing else changed |
| `VirtqObject.Virtq.AllocDesc` | guest/rustee-guest/src/virtio.rs:222-230 | a free id after recycling, or none only if all 16 are with the device |
| `VirtqObject.Virtq.Publish` | guest/rustee-guest/src/virtio.rs:266-281 | is a fill followed by a bump |
| `VirtqObject.Virtq.AddIn` | guest/rustee-guest/src/virtio.rs:249-264 | hands a buffer for the device to write to it, after everything sent before |
| `VirtqObject.Virtq.TryAddOutOwned` | guest/rustee-guest/src/virtio.rs:233-247 | the packet is sent after all earlier ones; an attempt fails iff all 16 descriptors are with the device |
| `RpcFiles.RpcFs.Put` | crates/rustee-storage/src/rpc.rs:88-97 | the chunked writes and the truncation leave exactly the data, whatever the file was, and no other file changes |
| `RpcFiles.RpcFs.Get` | crates/rustee-storage/src/rpc.rs:53-67 | the read loop terminates with the whole file, also at exact multiples of the chunk |
| `RpcFiles.RpcFs.PutFile` | crates/rustee-storage/src/rpc.rs:34-46 | the file becomes the data or, if it is missing and not to be created, nothing happens; no descriptor stays open |
| `RpcFiles.RpcFs.Create` | crates/rustee-storage/src/rpc.rs:49-51 | the map of files with this one entry replaced |
| `RpcFiles.RpcFs.Read` | crates/rustee-storage/src/rpc.rs:53-67 | the map's entry, nothing changed, no descriptor left open |
| `RpcFiles.RpcFs.Write` | crates/rustee-storage/src/rpc.rs:69-75 | the map with this one entry replaced, created if missing |
| `RpcFiles.RpcFs.Delete` | crates/rustee-storage/src/rpc.rs:77-81 | the map without this entry |
| `Directory.DirRoundTrip` | crates/rustee-storage/src/lib.rs:448-531 | parsing undoes the encoding for every directory of ids up to 255 bytes; an entry without a file comes back with the file id of zeros |
| `Directory.Build` | crates/rustee-storage/src/lib.rs:454-468 | the plain text, record after record |
| `Directory.Parse` | crates/rustee-storage/src/lib.rs:495-531 | the offset loop is the parser |
| `Sealed.DirFileRoundTrip` | crates/rustee-storage/src/lib.rs:386-492 | a sealed directory opens to itself |
| `Sealed.DirAcceptedIff` | crates/rustee-storage/src/lib.rs:386-426 | a directory file is accepted iff it is a nonce, a text sealed for this application and the authentication code over it, and the text parses |
| `Sealed.ObjectFileRoundTrip` | crates/rustee-storage/src/lib.rs:257-380 | an object file read under the same entry gives the data back |
| `Sealed.ObjectAcceptedIff` | crates/rustee-storage/src/lib.rs:318-380 | an object file is accepted iff it has the magic number and, from its first nonce on, begins like one sealed for this application, file id, version and object id; its header's own copies of them are not compared |
| `Sealed.AadBinds` | crates/rustee-storage/src/lib.rs:269-273 | the associated data determines the application, the file id and the version |
| `Sealed.HeadParts` | crates/rustee-storage/src/lib.rs:296-311 | where each field of an object file lies |
| `ObjectStore.OpenReads` | crates/rustee-storage/src/lib.rs:153-165 | open returns what the map holds, or NotFound iff it holds nothing |
| `ObjectStore.WriteBackHolds` | crates/rustee-storage/src/lib.rs:177-256 | writing a handle back updates exactly its object and keeps entries and files paired |
| `ObjectStore.WriteBackOpens` | crates/rustee-storage/src/lib.rs:177-256 | after a write the object opens as the handle written, flags and version included, and every other object opens as before |
| `ObjectStore.DeleteHolds` | crates/rustee-storage/src/lib.rs:207-218 | delete removes exactly its object and keeps entries and files paired |
| `ObjectStore.WriteBackFrame` | crates/rustee-storage/src/lib.rs:240-316 | only the object's own file and the directory change |
| `StoreRuns.StepRefines` | crates/rustee-storage/src/lib.rs:153-256 | each operation replies as the plain map does |
| `StoreRuns.CreateRefines` | crates/rustee-storage/src/lib.rs:112-147 | a create that is refused, or that comes when there is no object, replies as the plain map does |
| `StoreRuns.RunRefines` | crates/rustee-storage/src/lib.rs:112-256 | from every paired directory, every run of create, open, write, truncate and delete that creates only when there is no object, stale handles included, replies as the plain map does and ends paired |
| `StoreRuns.RunFromNothing` | crates/rustee-storage/src/lib.rs:112-256 | so does every such run that begins without a directory |
| `StoreRuns.PlainWrite` | crates/rustee-storage/src/lib.rs:177-195 | what a write means on the plain map, byte by byte: the data in its window, the handle's copy around it, zeros in a gap, nothing else changed |
| `StoreRuns.PlainTruncate` | crates/rustee-storage/src/lib.rs:197-205 | what a truncation means: the first bytes of the copy, then zeros |
| `StoreCreate.CreatePairs` | crates/rustee-storage/src/lib.rs:428-446 | after a create every entry has its own file iff the directory was empty |
| `StoreCreate.CreateLosesFirst` | crates/rustee-storage/src/lib.rs:112-147 | on a non-empty directory create makes the first object unreadable |
| `StoreCreate.CreateExact` | crates/rustee-storage/src/lib.rs:112-147 | create keeps every object readable iff there was none before |
| `StoreCreate.CreateHolds` | crates/rustee-storage/src/lib.rs:112-147 | a create when there is no object leaves exactly the new one, paired with its file |
| `StoreCreate.CreateRest` | crates/rustee-storage/src/lib.rs:112-147 | a create keeps every other object readable but the first |
| `StoreCreate.CreateLosesNew` | crates/rustee-storage/src/lib.rs:428-446 | on a non-empty directory, unless a file id of zeros is in use, the new object cannot be read either |
| `StoreCreate.RenameExact` | crates/rustee-storage/src/lib.rs:220-238 | no rename, to whatever id, leaves all objects readable |
| `StoreCreate.RenameLosesFirst` | crates/rustee-storage/src/lib.rs:220-238 | every rename makes the first of the other objects unreadable, or the renamed one if there is no other |
| `StoreCreate.RenameRest` | crates/rustee-storage/src/lib.rs:220-238 | every other object reads as before, the one whose id is renamed onto included |
| `StoreCreate.RenameLoses` | crates/rustee-storage/src/lib.rs:220-238 | unless a file id of zeros is in use, an object renamed to an id not in use cannot be read again |
| `ReeFsObject.ReeFs.LoadDirFull` | crates/rustee-storage/src/lib.rs:386-426 | is the model's load, with every corrupt case |
| `ReeFsObject.ReeFs.StoreDirFull` | crates/rustee-storage/src/lib.rs:448-492 | is the model's store |
| `ReeFsObject.ReeFs.PutObject` | crates/rustee-storage/src/lib.rs:257-316 | is the model's object write |
| `ReeFsObject.ReeFs.UpsertDir` | crates/rustee-storage/src/lib.rs:240-255 | is the model's directory update |
| `ReeFsObject.ReeFs.OpenObject` | crates/rustee-storage/src/lib.rs:153-165 | is the model's open |
| `ReeFsObject.ReeFs.Write` | crates/rustee-storage/src/lib.rs:177-195 | too big changes nothing; otherwise the data in its window, the old bytes around it, zeros in a gap, the version one up, and the object written back |
| `ReeFsObject.ReeFs.Truncate` | crates/rustee-storage/src/lib.rs:197-205 | too big changes nothing; otherwise the old bytes up to the size, then zeros, the version one up, and the object written back |
| `ReeFsObject.ReeFs.DeleteObject` | crates/rustee-storage/src/lib.rs:207-218 | is the model's delete |
| `CipherModes.CbcRoundTrip` | crates/rustee-crypto/src/provider.rs:84-128 | chaining decryption undoes encryption for every invertible block cipher, initial vector and whole number of blocks |
| `CipherModes.XorBit` | crates/rustee-crypto/src/provider.rs:99-101 | a bit of the exclusive or is set iff the two bits differ |
| `CipherModes.XorSame` | crates/rustee-crypto/src/provider.rs:99-101 | with zero a byte stays, with itself it is zero |
| `CipherModes.CbcChains` | crates/rustee-crypto/src/provider.rs:84-106 | every cipher block is the cipher of its plain block combined with the cipher block before it, the first with the initial vector |
| `CipherModes.CbcUnchains` | crates/rustee-crypto/src/provider.rs:108-128 | every plain block is its deciphered block combined with the cipher block before it |
| `CipherModes.CbcEncryptLoop` | crates/rustee-crypto/src/provider.rs:84-106 | every block written is the cipher of its plain block combined with the block written before it; other lengths are refused with nothing written |
| `CipherModes.CbcDecryptLoop` | crates/rustee-crypto/src/provider.rs:108-128 | every block written is its deciphered block combined with the cipher block before it; other lengths are refused |
| `CipherModes.CtrTwice` | crates/rustee-crypto/src/provider.rs:130-150 | counter mode twice is the identity for every length |
| `CipherModes.IncrementLoop` | crates/rustee-crypto/src/provider.rs:140-145 | the carry loop is the big-endian increment |
| `CipherModes.CounterNext` | crates/rustee-crypto/src/provider.rs:140-145 | that increment is addition of one modulo 2^128 |
| `CipherModes.CounterValue` | crates/rustee-crypto/src/provider.rs:130-150 | the counter of block j is the initial vector plus j modulo 2^128 |
| `CipherModes.CtrLoop` | crates/rustee-crypto/src/provider.rs:130-150 | byte k becomes its exclusive or with byte k modulo 16 of the cipher of the counter of block k / 16, the last block possibly cut |

## Left out

- BigInt.Add: requires room for the larger operand when the signs differ, because the code indexes past a shorter destination there.
- BigInt.Sub: subtrahends of more than 128 limbs, which do not fit the code's negated copy.
- BigIntDivide.Div: divisors of more than 128 limbs, dividends of more than 128 limbs that fit the remainder, and quotient buffers without room: the code indexes past its buffers there.
- BigIntModular.Modulo: negative moduli.
- BigIntModular.ExpMod: moduli beyond 2048 bits, for which `BigIntModular.ModulusExact` shows that squares of residues do not all reduce; operands of 128 limbs that do not reduce exactly.
- BigIntModular.MulMod: products of more than 128 limbs that fit the destination, which overrun the scratch space of the division; for products of different signs exactness of the division is proved sufficient, not necessary.
- BigIntGcd.ComputeExtendedGcd: operands of 128 limbs, for which division may be inexact (`BigIntDivide.LongDividend`), and output buffers shorter than the operands, which the code cuts off.
- BigIntGcd.InvMod: operands of 128 limbs.
- BigIntGcd.RelativePrime: operands of 128 limbs.
- SlotTable.Table.Alloc: requires that the next id is not in use, which can only fail after the ids have wrapped around.
- RpcFiles.RpcFs.Put: data of 2^32 bytes and more, for which the 32-bit offset wraps and the loop does not end.
- Directory.DirRoundTrip: object ids of more than 255 bytes, whose length does not fit its byte.
- VirtqObject.Virtq.TryAddOutOwned: one attempt; the wait for the device to return a descriptor is not modelled.
- VirtqObject.Virtq.AddIn: requires an id that is not in flight, as its callers see to by polling first.
- HostObject.HandleMsg: the clock and the outcome of a file operation are inputs; what the operation does to the host's files is not modelled.
- HostObject.StreamTransport.Turn: a stream that breaks inside a bounce window leaves the pool as it was, where the code leaves that window unspecified.
- Kernel: runs that use up 2^32 - 1 ids or more, in which ids come back; login identities, parameter contents and pseudo-TA state; panics inside a pseudo-TA, of which one in its invoke halts the machine and one in its open or close only fails the command; early and pseudo-TAs are fixed at boot.
- Protocol: connection set-up, credit updates and socket timeouts; what the kernel writes into the pool is arbitrary.
- Decoding of client commands from messages, write-back of results and mapping of shared memory in the guest.
- 64-bit overflow of a cookie plus a length inside decode_msg and of an offset plus a length in object writes: computed without bound.
- File descriptors of the file server are unbounded numbers; its directory operations and name filtering.
- Storage: key derivation, AES-GCM and HMAC are function parameters with their laws; random bytes are inputs; object flags and listing.
- Shift right, conversion to 32-bit integers, negation, squares and the FMM functions of the arithmetic library: direct or easy.
- Hashes, signatures, key generation and the GCM mode of the crypto provider: wrappers over other libraries.
- ELF loading, page tables, UART, PCI and the Linux driver.
