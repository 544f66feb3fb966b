# VGRE verification models

Dafny models of seven VGRE components whose correctness is arithmetic, stateful or both, and machine-checked
proofs of what they promise. Each model keeps the form of the C++ it stands for: limb arrays, buffers and objects
are updated in place by methods, every method is proved against a mathematical function or state, and the
component's promises are theorems about that function or state. `dafny verify dfyconfig.toml` checks everything.

| file | models |
|---|---|
| `Machine.dfy`, `Limbs.dfy`, `Sorting.dfy` | fixed-width integers, limb and byte numbers, sorting and counting |
| `Field25519.dfy`, `X25519.dfy` | the sixteen-limb field modulo 2^255 - 19 and the portable X25519 |
| `Poly1305.dfy`, `Poly1305Rfc.dfy` | the 26-bit-limb MAC, and exactly when it agrees with RFC 8439 |
| `Gf128.dfy`, `Ctr.dfy`, `Gcm.dfy`, `ChaChaPoly.dfy` | GF(2^128), GHASH, counter mode and both AEAD constructions |
| `Sha256.dfy`, `Pbkdf2.dfy` | streaming SHA-256, HMAC, PBKDF2 with cached key states |
| `ReplayWindow.dfy`, `SecureChannel.dfy` | the 2048-bit receive window, and the packet layer end to end |
| `RobustAggregation.dfy` | median, trimmed mean, Krum and Multi-Krum |
| `Bisection.dfy`, `Partitioner.dfy`, `PlanValidation.dfy` | where a 3D grid is cut and when that is defined, the recursion, plan creation and validation |
| `HashRing.dfy`, `Lock.dfy` | the consistent-hash ring, the TTL lock with fencing tokens, leader election |
| `WebSocket.dfy` | frame building, frame reading and message reassembly |
| `TokenBucket.dfy` | the rate limiter |

Conventions. `uint32`, `uint64` and `int64` are ranges of `int`: assigning to a variable of such a type is a proof
that the C++ operation does not overflow, and wrap-around that the C++ relies on is written as `% 2^64`. `double`
is `real`. The AES block, the SHA-256 compression, the ChaCha block and the ring's hash are arbitrary functions,
so every theorem holds whatever they compute. Time, random numbers and the network are parameters.

## Where the code and its documentation differ

The models follow the code.

- `src/advanced/secure_channel_crypto.cpp:1404` gives the 1-bit of a full Poly1305 block the weight 2^122, where
  RFC 8439 (and the comment on that line) has 2^128. `Poly1305.Poly1305Mac` states what is computed;
  `Poly1305Rfc.AgreesWithRfcIffShort` proves that the tags agree for every key if and only if the message is
  shorter than 16 bytes.
- `src/advanced/secure_channel_crypto.cpp:1488` takes the MAC over the ciphertext only, without the additional
  data and length block of RFC 8439. `ChaChaPoly.Seal` does the same.
- The comment at `src/advanced/secure_channel.cpp:591` speaks of 256 bits; the window has 2048
  (`include/vgre/advanced/secure_channel.h:308`).
- `include/vgre/advanced/workload_partitioner.h:91` says that `validatePlan` checks "no gaps, no overlaps"; it
  compares bounds and volumes in 64-bit arithmetic. `PlanValidation.OverlapAccepted` gives an accepted plan with a
  gap and an overlap. `PlanValidation.PromiseIffNoOverlap` is the exact rule below 2^64 blocks: an accepted plan
  keeps the promise if and only if nothing overlaps. `PlanValidation.GapAccepted` shows why the bound is needed, and
  `PlanValidation.HugeGridRefused` a grid whose own correct plan is refused. Line 64 of the same header says that
  the grid is cut along X; the code cuts the largest dimension.
- The partitioner divides by the total capacity of a group. `Bisection.DefinedIff` is the exact rule for capacities
  that are not negative: its arithmetic is defined if and only if at most one of them is zero, or the box that is
  left for the zero ones cannot be cut. `Bisection.TwoZerosUndefined` is an input that divides zero by zero,
  `Bisection.TwoZerosDefined` one with two zero capacities that does not.
- `include/vgre/advanced/fault_tolerance.h:30` says that `krumSelect` returns -1 for too few gradients; the code
  does so only for none.
- A ring whose virtual nodes collide loses points on removal: one shared point is enough
  (`HashRing.SharedPointLost`), and the other of two nodes loses every key exactly when all its points are shared
  (`HashRing.CollisionTakesKeys`). `HashRing.RemoveMovesOnlyItsPoints` is the exact rule for a key, and the contracts
  of `AddNode` and `RemoveNode` say exactly when every node still holds all its points.
- A lease whose expiry passes 2^64 is dead at once: `Lock.LeaseExcludesIffNoWrap`.
- `recv` treats a PONG as the last fragment of a message: `WebSocket.ReceiveIsMessageIff`.
- A negative request overfills the token bucket: `TokenBucket.WithinIffNonNegative`.

## Model

The first 38 rows are the main results; the others are the steps and methods they rest on.

| member | source | states |
|---|---|---|
| X25519.SwX25519 | src/advanced/secure_channel_crypto.cpp:1219-1251 | For every scalar and u-coordinate the output is the encoding of the affine result of the RFC 7748 ladder over integers modulo p, reading bits 254..0 of the scalar as given, without clamping. |
| Field25519.GfMul | src/advanced/secure_channel_crypto.cpp:1157-1174 | The result is the field product of the operands, reduced, with no int64 overflow on operands as large as the ladder forms, and the output may alias either operand. |
| Field25519.GfInv | src/advanced/secure_channel_crypto.cpp:1182-1191 | The result is a^(p-2), the inverse of a by Fermat's theorem. |
| X25519.GfPack | src/advanced/secure_channel_crypto.cpp:1197-1216 | The 32 bytes are the little-endian encoding of the unique representative below p of the element. |
| Poly1305.Poly1305Mac | src/advanced/secure_channel_crypto.cpp:1352-1459 | For every key and message the tag is ((sum of blocks times powers of the clamped r) mod 2^130 - 5 + s) mod 2^128, with the pad bit as the code weighs it. |
| Poly1305Rfc.AgreesWithRfcIffShort | src/advanced/secure_channel_crypto.cpp:1404 | The tag is that of RFC 8439 for every key if and only if the message is shorter than 16 bytes. |
| Gf128.Gf128MulSw | src/advanced/secure_channel_crypto.cpp:901-926 | For every pair of blocks the output is their product in GF(2^128). |
| Gf128.MulIsPolynomialProduct | src/advanced/secure_channel_crypto.cpp:901-926 | The field product is the product of polynomials over GF(2) reduced modulo x^128 + x^7 + x^2 + x + 1. |
| Gcm.GhashIsPowerSum | src/advanced/secure_channel_crypto.cpp:928-963 | GHASH is X1 h^m + ... + Xm h over the padded additional data, the padded ciphertext and the length block (section 6.4 of NIST SP 800-38D). |
| Gcm.GhashSw | src/advanced/secure_channel_crypto.cpp:928-963 | The block loop with its two padded tails computes GHASH. |
| Gcm.Decrypt | src/advanced/secure_channel_crypto.cpp:1050-1067 | It accepts exactly the encryptions of what it outputs, so any other tag is refused. |
| Ctr.Aes256CtrHw | src/advanced/secure_channel_crypto.cpp:471-554 | The loop of four blocks, single blocks and a tail yields the same bytes as the simple loop, for any block function. |
| ChaChaPoly.Decrypt | src/advanced/secure_channel_crypto.cpp:1494-1524 | An accepted input is the encryption of the output; a refused one, short inputs included, is the encryption of nothing. |
| Sha256.HashInPieces | src/advanced/secure_channel_crypto.cpp:111-187 | However a message is cut into updates, the digest is that of the whole message. |
| Pbkdf2.Pbkdf2Sha256 | src/advanced/secure_channel_crypto.cpp:234-315 | For every password, salt, iteration count and length the key is that of the plain definition, the last block truncated; 0 iterations behave as 1. |
| ReplayWindow.Window.Check | src/advanced/secure_channel.cpp:597-650 | The verdict and the new state are those of the plain set of accepted numbers; the bitmap always equals that set restricted to the window. |
| ReplayWindow.DeliveredIff | src/advanced/secure_channel.cpp:597-650 | A packet is delivered if and only if no earlier delivered packet has its number or is 2048 or more ahead of it. |
| SecureChannel.DeliveredWasSent | src/advanced/secure_channel.cpp:533-665 | If what passes authentication was sent, everything delivered in any run is a sent message, unchanged. |
| SecureChannel.DeliveredOnce | src/advanced/secure_channel.cpp:594-665 | No sent message is delivered twice. |
| SecureChannel.FirstCopyArrives | src/advanced/secure_channel.cpp:594-665 | The first copy of a message is delivered with its data unless a packet 2048 or more numbers ahead came before. |
| RobustAggregation.MedianTolerance | src/advanced/fault_tolerance.cpp:27-42 | With more than twice as many inputs as arbitrary ones, each coordinate of the median lies between the smallest and the largest honest value. |
| RobustAggregation.TrimmedMeanTolerance | src/advanced/fault_tolerance.cpp:44-65 | With at most `trim` arbitrary inputs and n > 2 trim, each coordinate lies between the smallest and the largest honest value. |
| RobustAggregation.KrumTolerance | src/advanced/fault_tolerance.cpp:67-97 | With n >= 2f + 3, at most f arbitrary inputs and honest inputs within D of each other, the selected input is within (n - f - 2) D of an honest one. |
| RobustAggregation.MultiKrumMean | src/advanced/fault_tolerance.cpp:99-128 | When no more inputs are averaged than are honest, every coordinate of the mean lies within e of the honest range, for every e whose square is at least (n - f - 2) D. |
| Partitioner.PartitionRecursive | src/advanced/workload_partitioner.cpp:13-118 | For any capacities the recursion terminates, and where its arithmetic is defined it appends slices that contain every block of the box exactly once, none empty when the box is not, each node owning at most one, numbered consecutively. |
| Bisection.DefinedIff | src/advanced/workload_partitioner.cpp:49-118 | For capacities that are not negative the recursion never divides by zero or converts out of range if and only if at most one capacity is zero, or the box left for the zero ones cannot be cut. |
| PlanValidation.AcceptedIffCovered | src/advanced/workload_partitioner.cpp:181-211 | Slices in bounds that do not overlap are accepted if and only if they cover every block exactly once. |
| PlanValidation.PromiseIffNoOverlap | src/advanced/workload_partitioner.cpp:181-211 | Below 2^64 blocks an accepted plan covers every block exactly once if and only if no slices overlap. |
| HashRing.AddRemapsOnlyTo | src/advanced/distributed.cpp:28-34 | After a node is added every key has its old entry or belongs to the new node, collisions or not. |
| HashRing.RemoveMovesOnlyItsPoints | src/advanced/distributed.cpp:36-40 | After a removal a key keeps its entry if and only if no point of the removed node served it. |
| HashRing.ConsistentHashRing.GetNodes | src/advanced/distributed.cpp:51-65 | The list has no repetition, begins with the key's own node, and has min(r, nodes) entries when every node has a point. |
| Lock.TokensFence | src/advanced/distributed.cpp:73-83 | In every run a token belongs to one resource and one owner, tokens of a resource never go down, and a change of owner makes the token strictly larger. |
| Lock.LeasedIff | src/advanced/distributed.cpp:73-100 | An owner has a lease until u if and only if its last success on the resource asked for u and nothing has succeeded there since. |
| Lock.MutualExclusion | src/advanced/distributed.cpp:73-100 | With times that do not go back and no overflow, another owner is granted the resource only after the previous lease ran out, was prolonged no more and not released. |
| Lock.TermsNeverOverlap | src/advanced/distributed.cpp:110-118 | A campaign won after another candidate's win, with no resignation in between, comes at least one lease later. |
| WebSocket.StreamRoundTrip | src/advanced/websocket_transport.cpp:480-558 | Frames sent one after another are read back in order, and nothing is left over. |
| WebSocket.ReceiveIsMessageIff | src/advanced/websocket_transport.cpp:562-590 | For a whole message with control frames in between, recv returns its data, answers every ping and consumes exactly its frames if and only if there is no PONG among them. |
| TokenBucket.WindowBound | src/advanced/traffic_manager.cpp:174-196 | Over any contiguous part of any run, timestamps in any order, at most burst + rate * advance / 1000 is granted, and the tokens stay in [0, burst]. |
| Field25519.GfCarry | src/advanced/secure_channel_crypto.cpp:1135-1143 | One carry pass leaves the base-2^16 digits of the value modulo 2^256 and adds 38 times the overflow to limb 0, without int64 overflow for any limbs up to 2^62 in size. |
| Field25519.TwoCarries | src/advanced/secure_channel_crypto.cpp:1173 | Two passes bring any limbs of up to 57 bits to limbs 1..15 in [0, 2^16) and limb 0 within 38 of that range, keeping the residue modulo 2^255 - 19. |
| Field25519.CarryOfReduced | src/advanced/secure_channel_crypto.cpp:1200 | On a limb vector as multiplication leaves it, one more pass gives sixteen proper 16-bit digits of the same residue. |
| Field25519.GfAdd | src/advanced/secure_channel_crypto.cpp:1144-1146 | Limb-wise addition is addition in the field, for aliased arguments too, and stays in the range multiplication accepts. |
| Field25519.GfSub | src/advanced/secure_channel_crypto.cpp:1147-1149 | Limb-wise subtraction is subtraction in the field, for aliased arguments too. |
| Field25519.GfCswap | src/advanced/secure_channel_crypto.cpp:1150-1156 | The masked XOR exchanges the two arrays when the bit is 1 and leaves both alone when it is 0. |
| Field25519.MaskedXor | src/advanced/secure_channel_crypto.cpp:1151-1154 | On two's complement words, the mask -b selects between swapping and keeping two int64 values. |
| Field25519.FoldCongruent | src/advanced/secure_channel_crypto.cpp:1171 | Adding 38 times the upper fifteen columns to the lower ones keeps the value modulo 2^255 - 19. |
| Field25519.GfSqr | src/advanced/secure_channel_crypto.cpp:1175 | Squaring in place is the field square. |
| Field25519.GfMul121665 | src/advanced/secure_channel_crypto.cpp:1176-1181 | The result is 121665 times the operand in the field, reduced. |
| Field25519.FinalExponent | src/advanced/secure_channel_crypto.cpp:1185-1189 | Squaring 254 times and multiplying everywhere but at positions 4 and 2 builds the exponent p - 2. |
| X25519.GfUnpack | src/advanced/secure_channel_crypto.cpp:1192-1196 | The limbs hold the little-endian u-coordinate with bit 255 cleared, reduced modulo p. |
| X25519.SubtractP | src/advanced/secure_channel_crypto.cpp:1202-1209 | The borrow chain computes the value minus p, and the bit it reads is 1 exactly when the value was below p. |
| X25519.DiffAddSymmetric | src/advanced/secure_channel_crypto.cpp:1229-1247 | Differential addition does not depend on the order of the points, which is why the swap may wait for the next bit. |
| X25519.Step | src/advanced/secure_channel_crypto.cpp:1235-1244 | One turn on aliased limb arrays replaces the two points by the double of the first and the differential sum, as in section 5 of RFC 7748. |
| X25519.X25519SharedSecret | src/advanced/secure_channel_crypto.cpp:1266-1274 | The secret is that of the ladder and is accepted exactly when it is not zero. |
| Limbs.Load | src/advanced/secure_channel_crypto.cpp:1371-1374 | ORing shifted bytes loads the little-endian number of up to eight of them. |
| Poly1305.Decode | src/advanced/secure_channel_crypto.cpp:1370-1379 | The shifts and ORs regroup 16 bytes into five 26-bit limbs of the same number. |
| Poly1305.Schoolbook | src/advanced/secure_channel_crypto.cpp:1408-1412 | The five columns, with 2^130 read as 5, differ from the true product by a multiple of 2^130 - 5. |
| Poly1305.MultiplyReduce | src/advanced/secure_channel_crypto.cpp:1406-1421 | Multiplication and carries give the product modulo 2^130 - 5 with limbs again in range and no uint64 overflow. |
| Poly1305.AbsorbBlock | src/advanced/secure_channel_crypto.cpp:1386-1422 | One turn adds the block with its pad bit and multiplies by r modulo 2^130 - 5, for full and partial blocks. |
| Poly1305.SubtractQ | src/advanced/secure_channel_crypto.cpp:1433-1446 | The wrapping subtraction and mask selection leave exactly the residue below 2^130 - 5. |
| Poly1305.FinalCarry | src/advanced/secure_channel_crypto.cpp:1427-1432 | The carry chain after the loop leaves five limbs below 2^26 with the same residue. |
| Poly1305.Words | src/advanced/secure_channel_crypto.cpp:1453-1454 | The two words are the value modulo 2^128. |
| Poly1305.AddAndStore | src/advanced/secure_channel_crypto.cpp:1455-1458 | The stored tag is the sum modulo 2^128, with the carry between the words, and no other byte of the buffer changes. |
| Poly1305Rfc.LongMessagesDiffer | src/advanced/secure_channel_crypto.cpp:1404 | Under the key r = 1, s = 0 every message of 16 bytes or more gets a tag different from that of RFC 8439. |
| Poly1305Rfc.PadsAddUp | src/advanced/secure_channel_crypto.cpp:1384-1423 | Under the unit key the pad bits add up: the accumulator moves by their weight once per full block. |
| Gf128.MultiplesVanish | src/advanced/secure_channel_crypto.cpp:918-922 | Every multiple of x^128 + x^7 + x^2 + x + 1 reduces to zero, and ResidueOfSmall beside it fixes the representative. |
| Gf128.ResidueOfSmall | src/advanced/secure_channel_crypto.cpp:918-922 | Polynomials of degree below 128 are their own residue. |
| Gf128.MulComm | src/advanced/secure_channel_crypto.cpp:901-926 | Multiplication is commutative although the code treats its operands differently. |
| Gf128.MulLinear | src/advanced/secure_channel_crypto.cpp:901-926 | Multiplication is linear in each argument. |
| Gf128.MulAssociative | src/advanced/secure_channel_crypto.cpp:901-926 | Multiplication is associative. |
| Gf128.ShiftRight | src/advanced/secure_channel_crypto.cpp:911-922 | The byte-wise right shift with the conditional 0xe1 is multiplication by x in the bit order of section 6.3 of NIST SP 800-38D. |
| Gcm.IncrementCounter | src/advanced/secure_channel_crypto.cpp:991-993 | The last four bytes count up big-endian modulo 2^32 and the nonce is never touched. |
| Gcm.CoreSw | src/advanced/secure_channel_crypto.cpp:965-1014 | The output is the counter-mode stream from counter 2, and the tag is GHASH of the ciphertext side masked with the encrypted first counter block. |
| Gcm.SecureCompare | src/advanced/secure_channel_crypto.cpp:386-392 | The comparison without early exit is equality. |
| Gcm.Encrypt | src/advanced/secure_channel_crypto.cpp:1031-1047 | Ciphertext and tag are those of the plaintext under this key and nonce. |
| Gcm.RoundTrip | src/advanced/secure_channel_crypto.cpp:1031-1067 | Decrypting what was encrypted succeeds and gives the plaintext back. |
| Ctr.CryptUndoesItself | src/advanced/secure_channel_crypto.cpp:672-716 | Counter mode twice is the identity at every length, nonce and counter. |
| Ctr.CryptConcat | src/advanced/secure_channel_crypto.cpp:495-537 | A message may be cut at any block boundary, the second part going on with the counter. |
| Ctr.CounterWrap | src/advanced/secure_channel_crypto.cpp:482-487 | Only the low 32 bits of the counter reach the block. |
| Ctr.Aes256Ctr | src/advanced/secure_channel_crypto.cpp:672-716 | The block loop XORs the whole keystream into place and leaves the rest of the output alone. |
| ChaChaPoly.StreamUndoesItself | src/advanced/secure_channel_crypto.cpp:1322-1346 | The stream twice is the identity at every length and counter, 32-bit wrap-around included. |
| ChaChaPoly.ChaCha20Xor | src/advanced/secure_channel_crypto.cpp:1322-1346 | The chunked loop XORs the whole keystream into place and leaves the rest of the output alone. |
| ChaChaPoly.SealInjective | src/advanced/secure_channel_crypto.cpp:1468-1489 | Different plaintexts have different encryptions. |
| ChaChaPoly.Encrypt | src/advanced/secure_channel_crypto.cpp:1468-1489 | The output is the ciphertext under counter 1 followed by the tag of the ciphertext under the first half of block 0. |
| ChaChaPoly.RoundTrip | src/advanced/secure_channel_crypto.cpp:1468-1524 | Decrypting what was encrypted succeeds and gives the plaintext back. |
| Sha256.FoldConcat | src/advanced/secure_channel_crypto.cpp:124-148 | Absorbing whole chunks first does not change the result. |
| Sha256.FoldPending | src/advanced/secure_channel_crypto.cpp:124-148 | State and waiting bytes of a prefix determine the state after any continuation. |
| Sha256.Context.constructor | src/advanced/secure_channel_crypto.cpp:111-122 | A fresh context has absorbed nothing. |
| Sha256.Context.Update | src/advanced/secure_channel_crypto.cpp:124-148 | State, buffer prefix and bit count are always those of all bytes absorbed so far. |
| Sha256.Context.Final | src/advanced/secure_channel_crypto.cpp:150-180 | The digest is the compression folded over the padded message (section 5.1.1 of FIPS 180-4), and the context is wiped. |
| Pbkdf2.HmacSha256 | src/advanced/secure_channel_crypto.cpp:190-232 | The result is HMAC as RFC 2104 defines it, for keys of every length. |
| Pbkdf2.HmacReuse | src/advanced/secure_channel_crypto.cpp:265-275 | HMAC from copies of the two cached states equals HMAC computed from the key. |
| Pbkdf2.BlocksPrefix | src/advanced/secure_channel_crypto.cpp:279-307 | A longer derived key begins with the blocks of a shorter one. |
| Pbkdf2.DeriveBlock | src/advanced/secure_channel_crypto.cpp:280-301 | The XOR accumulated in place over the iterations is T_i of section 5.2 of RFC 8018. |
| ReplayWindow.ShiftedBit | src/advanced/secure_channel.cpp:615-627 | The shift across words moves every bit by the whole distance and brings in zeros. |
| ReplayWindow.Window.ShiftLeft | src/advanced/secure_channel.cpp:612-628 | Through the temporary copy, bit k of the result is bit k - advance of the window before. |
| ReplayWindow.HistoryIsDeliveries | src/advanced/secure_channel.cpp:597-650 | After any run the set holds exactly the delivered numbers and its highest is the highest delivered. |
| ReplayWindow.AtMostOnce | src/advanced/secure_channel.cpp:636-648 | In every run, under any reordering, loss or duplication, a number is delivered at most once. |
| ReplayWindow.FirstCopyDelivered | src/advanced/secure_channel.cpp:597-650 | An unseen number that is ahead of the window or inside it is never refused (section 3.4.3 of RFC 4303). |
| ReplayWindow.DeliverAll | src/advanced/secure_channel.cpp:594-651 | A window object gives every packet of a run the verdict of these theorems. |
| SecureChannel.SentOpens | src/advanced/secure_channel.cpp:427-470 | In both cipher modes what was sent passes the receiver's checks and decrypts to what was sent. |
| SecureChannel.Channel.SendSecure | src/advanced/secure_channel.cpp:417-470 | Each call uses the next sequence number and puts on the wire the ciphertext and tag of the data under it. |
| SecureChannel.Channel.RecvSecure | src/advanced/secure_channel.cpp:533-665 | A packet is delivered exactly when it passes the size and tag checks and the window accepts it; only packets that pass reach the window. |
| SecureChannel.Channel.AesCtr | src/advanced/secure_channel.cpp:268-285 | The channel cipher is counter mode under the session nonce with the sequence number as first counter. |
| SecureChannel.ReceiveAll | src/advanced/secure_channel.cpp:530-665 | A channel object delivers, packet by packet, what the three run theorems speak of. |
| SecureChannel.Transfer | src/advanced/secure_channel.cpp:417-665 | Over a network that loses and reorders nothing every message sent by one channel object is delivered by another, unchanged, in both modes. |
| RobustAggregation.Median | src/advanced/fault_tolerance.cpp:27-42 | Each coordinate is the median of the values that the inputs have there. |
| RobustAggregation.TrimmedMean | src/advanced/fault_tolerance.cpp:44-65 | Each coordinate is the mean of the sorted column without `trim` values at either end, or the plain mean if nothing would be left. |
| RobustAggregation.HonestScore | src/advanced/fault_tolerance.cpp:79-88 | An honest input's score is at most (n - f - 2) D. |
| RobustAggregation.HonestNear | src/advanced/fault_tolerance.cpp:79-88 | Every input is within its own score of some honest input. |
| RobustAggregation.MultiKrumTolerance | src/advanced/fault_tolerance.cpp:99-128 | Each of the n - f best-ranked inputs is within (n - f - 2) D of an honest one. |
| RobustAggregation.DistanceMatrix | src/advanced/fault_tolerance.cpp:75-77 | Computing each pair once fills the whole symmetric matrix of squared distances. |
| RobustAggregation.KrumSelect | src/advanced/fault_tolerance.cpp:67-92 | The index is that of the first input of minimal score, and -1 only when there is none. |
| RobustAggregation.Krum | src/advanced/fault_tolerance.cpp:94-97 | The result is an input of minimal score. |
| RobustAggregation.MultiKrum | src/advanced/fault_tolerance.cpp:99-128 | The result is the coordinate-wise mean of the m best-ranked inputs, m cut to [1, n]. |
| Bisection.HalfIsReached | src/advanced/workload_partitioner.cpp:93-100 | In falling order, for capacities of any sign, the loop stops at half of the total with a node to spare, so both groups are proper. |
| Bisection.CutIsProportional | src/advanced/workload_partitioner.cpp:106-108 | The cut divides the extent as the capacities are divided, to within one block. |
| Bisection.PositiveCut | src/advanced/workload_partitioner.cpp:86-108 | With a capacity that is positive the cut is defined, the first group is all positive and the second keeps every zero. |
| Bisection.TwoZerosUndefined | src/advanced/workload_partitioner.cpp:106 | Two nodes without capacity on two blocks divide zero by zero. |
| Bisection.TwoZerosDefined | src/advanced/workload_partitioner.cpp:62-65 | With a third node of positive capacity the same two never get to be divided. |
| Partitioner.CapacitySign | src/advanced/workload_partitioner.cpp:20-24 | The capacity of a usable node has the sign of its bandwidth. |
| Partitioner.SplitNodes | src/advanced/workload_partitioner.cpp:86-103 | The sorted nodes are cut after the fewest that hold half of the total; both groups are non-empty. |
| Partitioner.SplitPoint | src/advanced/workload_partitioner.cpp:106-108 | Where the quotient fits in 32 bits, the cut lies strictly inside the extent, in proportion to the capacities to within one block. |
| Partitioner.LargestDimension | src/advanced/workload_partitioner.cpp:49-57 | The dimension chosen is the first with the largest extent. |
| Partitioner.TilesJoin | src/advanced/workload_partitioner.cpp:110-117 | Tilings of the two halves make a tiling of the box, with no owner used more often than it has nodes. |
| PlanValidation.ValidatePlan | src/advanced/workload_partitioner.cpp:181-211 | The verdict is that of the bounds and the wrapping 64-bit volumes. |
| PlanValidation.TilesAccepted | src/advanced/workload_partitioner.cpp:181-211 | A tiling is accepted if and only if its block count is not a multiple of 2^64 and its slice count not of 2^32. |
| PlanValidation.OverlapAccepted | src/advanced/workload_partitioner.cpp:181-211 | There is an accepted plan that leaves one block uncovered and covers another twice. |
| PlanValidation.GapAccepted | src/advanced/workload_partitioner.cpp:186-203 | From 2^64 blocks on, a plan without overlap is accepted although it misses blocks. |
| PlanValidation.HugeGridRefused | src/advanced/workload_partitioner.cpp:186-190 | No plan of a grid of 2^31 by 2^31 by 4 blocks is accepted. |
| PlanValidation.PlanDefinedIff | src/advanced/workload_partitioner.cpp:120-165 | For bandwidths that are not negative, planning is defined if and only if at most one usable node has none, or the box left for those without cannot be cut. |
| PlanValidation.WorkloadPartitioner.CreatePartitionPlan | src/advanced/workload_partitioner.cpp:120-179 | For any grid and nodes: it fails exactly for an empty X dimension or without usable nodes, leaving the plan alone, is undefined exactly where the recursion is, and otherwise yields a tiling that validation accepts unless its block count is a multiple of 2^64 or its slice count of 2^32. |
| PlanValidation.WorkloadPartitioner.FilterNodes | src/advanced/workload_partitioner.cpp:130-145 | The nodes kept are those with cores and measured speed, the speed scaled by the learned factor. |
| PlanValidation.WorkloadPartitioner.RecordActualExecution | src/advanced/workload_partitioner.cpp:213-234 | The factor becomes the clamped moving average, and all factors stay in [0.1, 1]. |
| HashRing.NextIndexIsNext | src/advanced/distributed.cpp:45-49 | lower_bound with wrap-around finds the entry that comes first clockwise from the key. |
| HashRing.NextUnique | src/advanced/distributed.cpp:45-49 | At most one entry comes first clockwise from a key, so the owner is well defined. |
| HashRing.PutAllEntries | src/advanced/distributed.cpp:32-33 | After the loop the points of the node are its own, and every other entry is as before. |
| HashRing.EraseAllEntries | src/advanced/distributed.cpp:39 | After the loop exactly the entries at the node's points are gone, whoever held them. |
| HashRing.AddHolds | src/advanced/distributed.cpp:28-34 | After adding x, x holds all its points, and another node holds all of its own if and only if it did before and shares none with x. |
| HashRing.RemoveHolds | src/advanced/distributed.cpp:36-40 | After removing x a node holds all its points if and only if it did before and shares none with x. |
| HashRing.SharedPointLost | src/advanced/distributed.cpp:28-40 | Adding b and removing it again takes from another node exactly the entries at points of b. |
| HashRing.ConsistentHashRing.RemoveKeepsOthers | src/advanced/distributed.cpp:36-40 | Removing a node of a complete ring, or any name that collides with none, leaves every key of another node where it is. |
| HashRing.CollisionTakesKeys | src/advanced/distributed.cpp:28-40 | Adding and removing b leaves a without any key if and only if every point of a is a point of b. |
| HashRing.WalkIsPrefix | src/advanced/distributed.cpp:58-63 | Wherever the walk stops, its result is the beginning of the list of distinct owners met on a whole turn. |
| HashRing.ConsistentHashRing.OwnersAreNodes | src/advanced/distributed.cpp:51-65 | A whole turn meets as many distinct owners as there are nodes if and only if no node has lost every point. |
| HashRing.ConsistentHashRing.CompleteIsPresent | src/advanced/distributed.cpp:28-34 | If no virtual node was overwritten, every node is on the ring. |
| HashRing.ConsistentHashRing.CompleteNeverCollides | src/advanced/distributed.cpp:28-40 | On a ring where every node holds all its points no two nodes share one. |
| HashRing.ConsistentHashRing.constructor | src/advanced/distributed.cpp:25-26 | A ring starts empty, and a count of virtual nodes that is not positive becomes 1. |
| HashRing.ConsistentHashRing.AddNode | src/advanced/distributed.cpp:28-34 | An unknown node gets all its points; afterwards every node holds all of its own if and only if that was so before and the new one collides with none. |
| HashRing.ConsistentHashRing.RemoveNode | src/advanced/distributed.cpp:36-40 | The node and its points go; afterwards every node holds all of its own if and only if all others did before and none collides with the one removed. |
| HashRing.ConsistentHashRing.GetNode | src/advanced/distributed.cpp:42-49 | The node returned owns the first entry clockwise from the key, "" on an empty ring. |
| Lock.LeaseExcludesIffNoWrap | src/advanced/distributed.cpp:73-83 | A granted lease shuts other owners out for its whole time if and only if it is empty or its expiry does not wrap around. |
| Lock.OneTokenOneTenure | src/advanced/distributed.cpp:79-81 | Between two grants of one token nobody else was granted the resource. |
| Lock.HolderIff | src/advanced/distributed.cpp:102-107 | A resource has a holder at t if and only if the last success on it was a lease that ends after t. |
| Lock.DistributedLock.Acquire | src/advanced/distributed.cpp:73-83 | The token and the new state are those of the run model: grant, re-entry with the same token, or refusal. |
| Lock.DistributedLock.Renew | src/advanced/distributed.cpp:85-92 | Only a live lease of the same owner is prolonged. |
| Lock.DistributedLock.Release | src/advanced/distributed.cpp:94-100 | Only the owner's hold is dropped, expired or not. |
| Lock.DistributedLock.Holder | src/advanced/distributed.cpp:102-107 | The owner of the live lease, "" without one. |
| Lock.LeaderElection.Campaign | src/advanced/distributed.cpp:110-112 | A campaign is an acquisition of the leader key, won exactly when a token came back. |
| Lock.LeaderElection.Resign | src/advanced/distributed.cpp:113-115 | A resignation is a release of the leader key. |
| Lock.LeaderElection.Leader | src/advanced/distributed.cpp:116-118 | The leader is the holder of the leader key. |
| WebSocket.BigEndianRoundTrip | src/advanced/websocket_transport.cpp:487-494 | A length written high byte first is read back as itself. |
| WebSocket.AnnouncedLength | src/advanced/websocket_transport.cpp:485-495 | Each of the three length encodings announces the payload length and carries the mask bit. |
| WebSocket.RoundTrip | src/advanced/websocket_transport.cpp:480-558 | Parsing a written frame, masked or not, followed by anything gives the frame back and consumes exactly its bytes. |
| WebSocket.BuildFrame | src/advanced/websocket_transport.cpp:480-511 | The bytes are the masked FIN frame of section 5.2 of RFC 6455, for every payload length and mask. |
| WebSocket.Client.ReadFrame | src/advanced/websocket_transport.cpp:522-558 | It returns the frame at the head of the stream and leaves the rest, or fails once the stream has run dry. |
| WebSocket.Unmask | src/advanced/websocket_transport.cpp:552-554 | The in-place loop XORs byte i with byte i mod 4 of the key. |
| WebSocket.Client.Recv | src/advanced/websocket_transport.cpp:562-590 | The object does what the reassembly function says: message, remaining stream, emptied buffer, one PONG with the same payload per PING, CLOSE answered and disconnected. |
| WebSocket.Client.Send | src/advanced/websocket_transport.cpp:514-519 | A connected client sends the data as one masked BINARY frame, another one nothing. |
| WebSocket.Client.Disconnect | src/advanced/websocket_transport.cpp:450-472 | An open connection is closed with an empty CLOSE frame, and the buffer is emptied. |
| TokenBucket.GrantedWasEarned | src/advanced/traffic_manager.cpp:177-190 | What is granted and what is left never exceed what was there and what the rate yields over the advance of the clock. |
| TokenBucket.BoundIsReached | src/advanced/traffic_manager.cpp:177-190 | That bound is attained. |
| TokenBucket.PauseSuffices | src/advanced/traffic_manager.cpp:177-190 | A request that the burst covers is granted after a long enough pause, whatever went before. |
| TokenBucket.WithinIffNonNegative | src/advanced/traffic_manager.cpp:185-190 | No call takes any bucket out of [0, burst] if and only if the request is not negative. |
| TokenBucket.RateLimiter.Refill | src/advanced/traffic_manager.cpp:177-183 | The first call only starts the clock; later ones add what was earned up to the burst, and time never goes back. |
| TokenBucket.RateLimiter.TryAcquire | src/advanced/traffic_manager.cpp:185-190 | A request is granted exactly when the refilled bucket covers it, and only then paid. |
| TokenBucket.RateLimiter.Available | src/advanced/traffic_manager.cpp:192-196 | It returns the refilled level and takes nothing. |

## Left out

- Sockets, TLS, OpenSSL code paths, threads and mutexes, logging, clocks and environment variables: time, random numbers and the network are parameters, and calls on one object come one after another.
- The AES rounds and key schedule, the SHA-256 compression and the ChaCha block: arbitrary functions.
- The AES-NI and CLMUL intrinsics: of the hardware paths only the loop structure of the counter mode is modelled; the GCM mode of the channel is modelled by the portable core.
- Strength of the cryptography: authentication is the assumption that what passes the checks was sent, and nothing is said about keystream reuse.
- The group law of Curve25519 and the primality of 2^255 - 19: the ladder agrees with section 5 of RFC 7748 as computed over integers, and the inverse is a^(p-2).
- X25519 key generation with its clamping (src/advanced/secure_channel_crypto.cpp:1257-1264): a random string, three masks and one ladder.
- Wiping of key material other than the SHA-256 context, whose wiping is part of `Sha256.Context.Final`.
- Input and output of the stream ciphers as one buffer: inputs are values, so in-place encryption is not modelled; the field arithmetic is modelled with its aliased arguments.
- Rounding of `double`: reals throughout. NaN and infinities do not occur.
- RobustAggregation.TrimmedMean: requires a trim that is not negative, since with a negative one the source reads beyond the column.
- PlanValidation.PlanDefinedIff: for negative bandwidths only the guard of each step, `Bisection.Defined`, says when the arithmetic is defined, since then both the sign of the total and the size of the quotient are open.
- `std::sort` and `std::map`: a sorting function with its counting facts, and the sequence of entries in key order; ties between equal capacities are left to the sort.
- The legacy X-only fields of a slice (src/advanced/workload_partitioner.cpp:40-43), copies of three others.
- The hash of the ring (src/advanced/distributed.cpp:14-23): an arbitrary function; nothing is said about balance.
- Lock.TokensFence: assumes fewer than 2^64 - 1 calls, after which the token counter would wrap around.
- `ping` and `poll` of the WebSocket client, the handshake, base64 and SHA-1: they only read frames or set the connection up.
- Failure of `rawSend` and of memory allocation for a large announced length.
- SecureChannel.DeliveredWasSent: messages longer than 64 MB, which the receiver refuses, and more than 2^64 messages are outside the theorem; magic and version of the header are taken as valid.
- Session lifetime, key derivation and handshake of the secure channel.
- ElasticMembership, the load balancer, the circuit breaker and all telemetry, CUDA, gRPC, RDMA, ledger and tooling code: easier or bound to I/O.
