# A verified model of the DDNet core

A Dafny model of eight components of DDNet, with proofs of what they are relied on for. All of it is stated for all
inputs, all runs or all interleavings. `dafny verify dfyconfig.toml` checks the whole project.

- **Asynchronous writer** (`AsyncRing`, `AsyncWriter`, `AsyncIo`). Clients queue bytes in a growing ring buffer under a
  lock; a worker copies chunks out, writes them with the lock released, and sleeps on a semaphore. The ring is a class
  over an array. The protocol is a state machine whose steps are the regions under the lock, the write, wait and
  signal. The object's methods carry out those steps on its fields.
- **Text codecs** (`CStrings`, `Memory`, `Utf8`, `Utf8Copy`, `Base64`, `EditDistance`). UTF-8 decoding, encoding,
  checking and cutting, bounded string copies, Base64 both ways, and edit distance in two rolling rows. Memory is a
  block of bytes with a terminator in it, loops are loops, and each is proved against a recursive definition.
- **SHA-256** (`Sha256Words`, `Sha256Spec`, `Sha256`, `Sha256Vector`). The streaming context with its carry buffer,
  against the definition of FIPS 180-4 written out separately, and that definition on the sentence of the repository's
  own test.
- **Random numbers** (`Counting`, `Pcg`, `PcgOutput`). The permuted congruential generator, the length of its cycle,
  and how often it returns each number.
- **Box movement** (`BaseMath`, `Collision`). Tiles, the four-corner test, and the mover with its sub-steps.
- **Character** (`Segment`, `Hook`, `Jump`, `Landing`, `Character`, `NameInts`). The hook and jump state machines of one
  character on values, the jumps also with the moves of the box mover; the same hook changed in place by characters that
  share a world, with the sets that say who holds whom; and the packing of names into integers.
- **Future logger** (`FutureLogger`). The hand-over from a pending list to the real logger, with any number of callers.
- **Colours and tile skips** (`Color`, `TileSkip`).

Numbers of type `float` are exact reals. A square root enters as a parameter that is not negative and has the right
square. Distances are compared by their squares. Unsigned and narrow integers wrap around explicitly where the code
can reach that point.

Where the code promises less than one would expect, the exact condition is proved, with a run or an input that shows the
failure: a write after `aio_close` can be lost (`WaitDelivers`, `LateWriteIsLost`), messages can overtake the replay
(`OrderKeptExactly`, `OneCallersMessagesSwapped`), a box longer than a tile can straddle one
(`FourCornersSufficeExactly`, `LongerBoxStraddles`), and some HSL and HSV triples do not come back (`HslRgbHsl`,
`HueOfGreyLost`; `HslHsvHsl`, `SaturatedEndsFade`; `HsvHslHsv`, `SaturatedBlackFades`). The sets of attached players go
wrong when a character dies that holds another (`Leave`, `DeathLeavesNumber`): `Die` and `Destroy` empty its place and
release no hook (`src/game/server/entities/character.cpp:983`, `:140`). They can go wrong when a paused character
returns (`Unpause`, `PauseRemembers`), and when a character is killed while it is held and spawned again before the
holder's next tick (`Spawn`, `SpawnIsHeld`). An ordinary respawn comes after a tick of the world, in which the holder
lets go of an empty place; loading a saved team kills and spawns with no tick in between
(`src/game/server/save.cpp:645-646`). They also would if a registered character were reset (`Reset`, `ResetForgets`);
the callers of `CCharacterCore::Reset` do that only before they register it.

Documentation and code differ in four places. The comment at `src/game/gamecore.cpp:223` says that a character with zero
jumps may not jump, since its second jump bit is always set. The rules set the bit only after the tick, and a move
clears it when `MoveBox` raises its flag, which needs a falling box and a positive vertical elasticity
(`src/game/gamecore.cpp:538-548`, `src/game/collision.cpp:560` and `:580`). `JumplessJumpsExactly` says when the
character therefore jumps. As `ground_elasticity_y` ships (0, `src/game/tuning.h:64`), no move clears the bit, and it
jumps at most once, in the turn after it has lost its jumps (`FlatJumpsAtMostOnce`, with a run in `JumpsAfterLosing`);
with a positive elasticity it can jump after every landing (`JumpsAfterLanding`).

The comment in the next line says that a character with one jump may do a ground jump or an air jump. It may, if the key
has been up ever since it was on the ground (`OneJumpExactly`); a key that is still down on the ground costs the jump
(`HeldKeyForfeits`). The comment at `src/game/server/entities/character.cpp:2150` gives players with infinite jumps
light feet, and line 1045 takes it that they can jump without a number of jumps. But the feet become light by setting
the key bit, so that with no jumps, or with a ground jump only, no press is answered any more (`EndlessWithoutJumps`).
With one jump or more a press always counts after the key has been seen up (`PressedExactly`), unless the number of
jumps grows meanwhile (`MoreJumpsSwallowPress`).

`src/base/system.h` asks for a buffer of twice the length of both strings combined plus two, the assertion in
`str_utf8_dist_buffer` for twice the sum of both lengths plus one each. The model requires what the assertion requires.

## Model

| member | source | states |
|---|---|---|
| AsyncRing.Ring.Stretches | src/base/system.cpp:483-498 | the two stretches, one behind the other, are the queued bytes, oldest first, for every position of the two cursors |
| AsyncRing.Ring.Len | src/base/system.cpp:611-621 | the length of the queue, whether or not it wraps around |
| AsyncRing.NextBufferSize | src/base/system.cpp:623-630 | the size is kept if it suffices; otherwise the new one suffices and is less than twice what is needed |
| AsyncRing.Ring.Write | src/base/system.cpp:643-691 | the queue afterwards is the queue before followed by the data, in all branches: room left, wrap-around, growth |
| AsyncRing.Ring.WriteBoth | src/base/system.cpp:651-660 | the write that wraps around appends just the same |
| AsyncRing.Ring.Grow | src/base/system.cpp:662-690 | moving the queue into a larger buffer keeps it and appends the data; the new buffer is never full |
| AsyncRing.Ring.CopyFront | src/base/system.cpp:544-562 | the worker's local copy is the front of the queue, at most as long as the local buffer, across the wrap |
| AsyncRing.Ring.Take | src/base/system.cpp:544-563 | what the worker takes is the front of the queue up to 64 KiB, and the queue keeps exactly the rest |
| AsyncIo.AsyncObject.constructor | src/base/system.cpp:575-609 | a new object is in the initial state of the protocol: empty queue, two references, a thread |
| AsyncIo.AsyncObject.WriteUnlocked | src/base/system.cpp:643-691 | carries out the write step of the protocol on the object's fields and ring |
| AsyncIo.AsyncObject.RequestClose | src/base/system.cpp:733-738 | the locked region of `aio_close` carries out its step |
| AsyncIo.AsyncObject.RequestExit | src/base/system.cpp:742-753 | the locked region of `aio_wait` carries out its step; that the step does not weaken a close request is `ClosedExactly` |
| AsyncIo.AsyncObject.Release | src/base/system.cpp:500-513 | giving up a reference carries out the step of `aio_free`, and tells the caller to delete exactly when nobody else holds one |
| AsyncIo.AsyncObject.Turn | src/base/system.cpp:519-564 | one turn of the worker under the lock carries out its step: leave, sleep, or take a chunk |
| AsyncWriter.RunInv | src/base/system.cpp:515-573 | in every interleaving of any number of clients with the worker, in every state: bytes in the file, in the worker's hands and in the queue make up all queued bytes in order; no wakeup is lost; the lock is exclusive; the object is freed by whoever is last |
| AsyncWriter.NextConserved | src/base/system.cpp:515-573 | every step keeps file ++ chunk in flight ++ queue equal to everything queued |
| AsyncWriter.NextNoLostWakeup | src/base/system.cpp:527-542 | every step keeps: a worker that waits with bytes queued or an end requested has a signal pending or a client that is still to give one |
| AsyncWriter.FileGrows | src/base/system.cpp:563-571 | over any stretch of a run the file only grows and is always a prefix of what has been queued; after the worker has left it does not change |
| AsyncWriter.LeavesWithEverything | src/base/system.cpp:527-537 | when the worker leaves, the file is exactly everything queued so far |
| AsyncWriter.WaitDelivers | src/base/system.cpp:742-756 | when `aio_wait` returns, all that was queued before the call is in the file, if and only if the worker had not already left with bytes in the queue |
| AsyncWriter.WaitDeliversUnlessLate | src/base/system.cpp:742-756 | the same said of the run: it is in the file if and only if no client has written any bytes between the worker's leaving and the call |
| AsyncWriter.LateWriteIsLost | src/base/system.cpp:733-740 | a run in which that exception happens: a byte written after `aio_close` has made the worker leave never reaches the file |
| AsyncWriter.NothingTouchesFreed | src/base/system.cpp:500-513 | after the object has been freed the only steps that can happen are returns from joins, which do not use it |
| AsyncWriter.QueuedIsWritten | src/base/system.cpp:643-691 | in every run, what counts as queued is the data of the write steps, in the order in which the lock was held |
| AsyncWriter.RequestsKept | src/base/system.cpp:715-756 | in every state of every run the object remembers exactly the requests made so far: to close if anybody ever asked for that, else to exit if anybody asked for that; and the thread is there until it is joined or detached |
| AsyncWriter.ClosedExactly | src/base/system.cpp:527-537 | in every run: the file has been closed if and only if the worker has left and some `aio_close` came before it did; an `aio_wait` before or after that call takes nothing away |
| AsyncWriter.LeavesOnRequest | src/base/system.cpp:527-537 | the worker leaves only after a request, once, and from then on the file is closed if and only if a close request came before |
| AsyncWriter.JoinedOnce | src/base/system.cpp:742-756 | the thread is joined at most once, and never after it has been detached |
| AsyncWriter.NeverStuck | src/base/system.cpp:515-573 | in every reachable state with bytes queued or an end requested, and the worker not gone, some thread inside a call can take a step by itself |
| AsyncWriter.WorkerDrains | src/base/system.cpp:515-573 | with all clients outside, the worker alone brings every queued byte into the file within an explicit number of steps, and has then left if and only if an end was requested |
| AsyncWriter.EverybodyDrains | src/base/system.cpp:515-573 | from any state of any run: the threads inside calls and the worker, in any interleaving, come to rest within an explicit number of steps unless somebody enters a call; every queued byte is then in the file, and the worker has left if and only if an end was requested |
| Utf8.EncodeInto | src/base/system.cpp:3838-3869 | writes exactly the encoding of the number and returns its length; nothing for numbers above 0x10FFFF |
| Utf8.Decode | src/base/system.cpp:3883-3948 | the byte-by-byte state machine computes the recursive decoder, consumes what that consumes, and never reads past the terminator |
| Utf8.DecodeIsCanonical | src/base/system.cpp:3883-3948 | whatever is decoded without error is a scalar value, and the bytes consumed are exactly its encoding |
| Utf8.DecodeOfEncode | src/base/system.cpp:3838-3948 | an encoded scalar value is decoded to itself and consumes exactly its bytes |
| Utf8.RoundTripExactlyForScalars | src/base/system.cpp:3838-3948 | encode then decode returns the number, without an error, if and only if it is a scalar value: surrogates and numbers above 0x10FFFF do not come back, nor do negative numbers, except that -1 is also what an error is told by |
| Utf8.WellFormedIsEncoded | src/base/system.cpp:3883-3948 | a byte string of the form of RFC 3629, section 4 is the encoding of the value its bits spell |
| Utf8.EncodedIsWellFormed | src/base/system.cpp:3838-3869 | the encoding of a scalar value has that form and spells that value |
| Utf8.Check | src/base/system.cpp:3950-3961 | answers whether the string decodes to its end without an error |
| Utf8.CheckAcceptsExactlyUtf8 | src/base/system.cpp:3950-3961 | accepted are exactly the concatenations of encodings of scalar values, and decoding yields the only code points the string encodes |
| Utf8.CodePointsOfEncoded | src/base/system.cpp:3950-3961 | a concatenation of encodings decodes to the code points that were encoded |
| Utf8.ErrorIsMaximal | src/base/system.cpp:3883-3948 | an error consumes the longest piece that can be the beginning of a character, or else one byte, and never a byte with which the next character might start |
| Utf8Copy.Rewind | src/base/system.cpp:3800-3809 | stops at the last byte before the cursor that can start a code point, or at the front |
| Utf8Copy.FixTruncation | src/base/system.cpp:3811-3826 | the text left is the text repaired, and its length is returned |
| Utf8Copy.RepairIsLongest | src/base/system.cpp:3811-3826 | valid text cut anywhere and repaired is the longest valid prefix that fits the cut |
| Utf8Copy.StrCopy | src/base/system.cpp:2720-2725 | any source: the cut and repaired source, its length returned; a valid source: its longest valid prefix of at most size - 1 bytes |
| Utf8Copy.StrAppend | src/base/system.cpp:2703-2718 | any strings and any size, also when the text in the buffer is already longer: the cut and repaired concatenation; valid strings: its longest valid prefix that fits |
| Base64.Encode | src/base/system.cpp:3321-3371 | whatever the buffer size: the front of the encoding of RFC 4648, section 4 that fits, terminated; the last cell of the buffer is zero, and no other cell behind the terminator is written |
| Base64.ReadDigit | src/base/system.cpp:3373-3396 | the position of the character in the alphabet, or -1 for any other |
| Base64.ReadGroup | src/base/system.cpp:3417-3445 | value and number of output bytes of a group, with padding only read in the last one |
| Base64.WriteGroup | src/base/system.cpp:3446-3462 | writes the bytes of a group, and refuses exactly when bits that padding leaves over are not zero |
| Base64.Decode | src/base/system.cpp:3398-3465 | returns the number of bytes with the decoded bytes in the buffer, or the error code of the first check that fails |
| Base64.DecodeOfEncode | src/base/system.cpp:3321-3465 | decoding undoes encoding for every byte string, if and only if the buffer has three bytes for every four characters |
| Base64.AcceptsOnlyCanonical | src/base/system.cpp:3398-3465 | every string the decoder accepts is exactly the encoding of what it decodes to, padding and left-over bits included |
| Base64.EncodesAsure | src/test/str.cpp:512-513 | the encoding of "asure." is "YXN1cmUu" |
| Base64.EncodesSure | src/test/str.cpp:514-515 | the encoding of "sure." is "c3VyZS4=", with padding |
| Base64.HighBytesEncoded | src/test/str.cpp:542-543 | three bytes of 0xFF and "////" belong together, which settles the end of the alphabet |
| EditDistance.DistBuffer | src/base/system.cpp:3071-3105 | the two rolling rows end with the recursive distance of the unswapped arguments and stay inside a_len + b_len + 2 cells |
| EditDistance.FillRow | src/base/system.cpp:3091-3102 | fills one row from the other: every cell is the distance of the two prefixes |
| EditDistance.DistIsLeast | src/base/system.cpp:3071-3105 | the distance is the least number of single insertions, deletions and substitutions that lead from one string to the other: so many suffice, and fewer never do |
| EditDistance.EditMovesByOne | src/base/system.cpp:3096-3100 | one edit of the first string changes the distance by at most one |
| EditDistance.DistReached | src/base/system.cpp:3096-3100 | an edit script of that length exists |
| EditDistance.DistSymmetric | src/base/system.cpp:3075-3085 | the distance is symmetric, which is what permits the swap of the arguments |
| EditDistance.ToUtf32 | src/base/system.cpp:3060-3069 | stores exactly the code points of the string and leaves what stood before them |
| EditDistance.Utf8DistBuffer | src/base/system.cpp:3107-3125 | the distance of the code points of the two strings, with both decoded strings and the rows in one buffer |
| Sha256.FillSchedule | src/base/hash_libtomcrypt.cpp:73-79 | the message schedule of FIPS 180-4, section 6.2.2 |
| Sha256.RoundInPlace | src/base/hash_libtomcrypt.cpp:82-103 | one round with its in-place additions and the shift of the eight registers |
| Sha256.CompressBlock | src/base/hash_libtomcrypt.cpp:64-108 | the in-place compression of one block equals the compression of section 6.2.2 |
| Sha256Words.ChAgrees | src/base/hash_libtomcrypt.cpp:55-55 | the shortened Ch is the one of section 4.1.2, on all words |
| Sha256Words.MajAgrees | src/base/hash_libtomcrypt.cpp:56-56 | the shortened Maj is the one of section 4.1.2, on all words |
| Sha256Words.SigmasAgree | src/base/hash_libtomcrypt.cpp:57-62 | the four sigma functions agree with section 4.1.2, rotations included |
| Sha256.Context.constructor | src/base/hash_libtomcrypt.cpp:112-124 | the initial context stands for the empty message |
| Sha256.Context.Process | src/base/hash_libtomcrypt.cpp:126-156 | through any mix of direct blocks and buffered bytes, the context stands for the old message followed by the input |
| Sha256.Context.Update | src/base/hash_libtomcrypt.cpp:196-199 | the same for an update, whose size passes through a 32-bit parameter: only the size modulo 2^32 of it arrives |
| Sha256.Context.PadOne | src/base/hash_libtomcrypt.cpp:162-176 | the one bit, and the extra block when no room is left for the length |
| Sha256.Context.Finish | src/base/hash_libtomcrypt.cpp:158-189 | the digest is the one-shot definition of the whole message: padding of section 5.1.1, compression over all blocks |
| Sha256.HashParts | src/base/hash_libtomcrypt.cpp:191-206 | for any split of a message into updates of under 2^32 bytes the digest is the one-shot digest of the concatenation |
| Sha256.SeenIsAll | src/base/hash_libtomcrypt.cpp:126-126 | what arrives through the 32-bit size is the whole message if and only if every part is shorter than 2^32 bytes |
| Sha256Spec.FoldAppend | src/base/hash_libtomcrypt.cpp:131-154 | compression over blocks composes: blocks of a concatenation are those of its parts in turn |
| Sha256Vector.DigestOfSentence | src/test/hash.cpp:23-25 | the definition, on the sentence of the test, gives the digest of the test: all constants, the schedule and the rounds as they should be |
| Sha256Vector.HashSentence | src/test/hash.cpp:23-25 | init, update and finish write that digest |
| Pcg.Prng.Seed | src/game/prng.cpp:31-41 | after seeding the increment is odd, twice the second seed plus one modulo 2^64, and the state is one step on from the sum |
| Pcg.Prng.RandomBits | src/game/prng.cpp:43-54 | advances the state by one linear congruential step and returns the permuted output of the old one |
| Pcg.PowerStep | src/game/prng.cpp:51-51 | 2^k steps add 2^k times an odd number, uniformly in the state |
| Pcg.Period | src/game/prng.cpp:38-51 | a state comes back after n steps if and only if n is a multiple of 2^64: the period is exactly 2^64 for every seed |
| Pcg.StatesRepeatExactly | src/game/prng.cpp:38-51 | two states of a run are equal if and only if they are a multiple of 2^64 steps apart, so the first 2^64 are distinct |
| Pcg.EveryStateIsVisited | src/game/prng.cpp:38-51 | from any state every 64-bit state is reached in fewer than 2^64 steps |
| PcgOutput.OutputAndRestTell | src/game/prng.cpp:47-53 | the returned number, the rotation and the dropped bits together tell the state |
| PcgOutput.ReturnedEquallyOften | src/game/prng.cpp:43-54 | from every state each 32-bit number is returned exactly 2^32 times in the 2^64 draws of a period |
| Pcg.RotationIsUndone | src/game/prng.cpp:26-29 | the rotation of the output loses nothing |
| PcgOutput.FirstNumbers | src/game/prng.cpp:31-54 | seeded with 42 and 54, the generator returns the first six numbers of the reference program, so that multiplier, increment, shifts and rotation are what they should be |
| Collision.CellOfIs | src/game/collision.cpp:315-322 | rounding, division and clamping together: cells are 32 wide, shifted by half a unit, with the outer ones unbounded |
| Collision.NoCellSkipped | src/game/collision.cpp:315-322 | an interval no longer than 32 meets no cell that neither of its ends lies in |
| Collision.PointReadsTile | src/game/collision.cpp:315-326 | a point is solid if and only if the tile of the grid that it lies over, column for column and row for row, is 1 or 3; off the map that is the nearest tile on the border |
| Collision.SolidExactly | src/game/collision.cpp:315-326 | every point: solid if and only if a map is loaded and the tile under it, or the nearest on the border, is 1 or 3 |
| Collision.FourCornersSuffice | src/game/collision.cpp:508-520 | for sides of at most 32 the four-corner test fails exactly if some point of the closed box is solid |
| Collision.FourCornersSufficeExactly | src/game/collision.cpp:508-520 | on all maps and places, the four corners stand for the whole box if and only if no side is longer than 32 |
| Collision.DoSubstep | src/game/collision.cpp:547-589 | one round of the loop, with its order of tests and writes, is the sub-step of the model |
| Collision.MoveBox | src/game/collision.cpp:522-595 | the loop with its early exits ends where all the sub-steps would have ended |
| Collision.VisitsOnlyFree | src/game/collision.cpp:556-589 | every position visited is the start or free, also for a box that starts inside a wall |
| Collision.MoveStaysClear | src/game/collision.cpp:522-595 | a box with sides of at most 32 that touches nothing solid touches nothing solid at any position of the move |
| Collision.SubstepIsShort | src/game/collision.cpp:528-547 | no sub-step is as long as one unit |
| Collision.SettingFits | src/game/collision.cpp:529-537 | the fraction of a move covers the velocity in exactly the number of sub-steps made, and the clamped elasticity damps |
| Collision.MoveIsBounded | src/game/collision.cpp:522-595 | on each axis the speed does not grow and the displacement is at most the initial velocity |
| Collision.ClearMoveIsExact | src/game/collision.cpp:537-590 | with nothing in the way the box ends exactly one velocity further, with its velocity unchanged |
| Collision.SubstepExactly | src/game/collision.cpp:556-587 | an axis stops if and only if the target is blocked and so is the way along this axis alone, or neither axis alone is; then it stays and its velocity is turned by the elasticity; the other axis covers its full share and keeps its velocity |
| Collision.VelocityTurns | src/game/collision.cpp:556-587 | after any number of sub-steps the velocity on an axis is the first one, turned by the elasticity once for every sub-step that has stopped there |
| Collision.ElasticMoveKeepsSpeed | src/game/collision.cpp:534-587 | a move with full elasticity on an axis loses no speed there, whatever it hits |
| Collision.SlideIsExact | src/game/collision.cpp:556-587 | along a floor or a wall without elasticity the box stops on that axis and covers its whole velocity on the other, which it keeps |
| Collision.MoveSlides | src/game/collision.cpp:522-595 | the same of a whole move on a map |
| Collision.MoveIsClear | src/game/collision.cpp:522-595 | a whole move on a map that meets nothing solid adds exactly the velocity |
| Collision.GroundedExactly | src/game/collision.cpp:560-586 | the grounded flag is raised if and only if some sub-step falls, bounces upwards and is blocked vertically or in a corner |
| Collision.NoAxisPreferred | src/game/collision.cpp:556-587 | exchanging the axes of map and motion exchanges the axes of the outcome, although one axis is tested first |
| Collision.SweepIsFree | src/game/collision.cpp:556-587 | between two free positions that differ on one axis by at most 32 all positions are free, so sliding passes through no wall |
| Landing.WalksOnFloor | src/game/collision.cpp:556-574 | a character on a floor, with gravity, keeps its height and walks as far as its velocity along the floor says |
| Hook.GrabsTheNearest | src/game/gamecore.cpp:347-371 | the search grabs somebody if and only if it hits an eligible character, and then the nearest, with the lowest number on ties |
| Segment.ClosestIsNearest | src/base/vmath.h:163-178 | the closest point lies on the segment, and no point of the segment is closer |
| Hook.InReachExactly | src/game/gamecore.cpp:357-360 | a character is in reach of a flight if and only if some point of the way is nearer to it than 30, in coordinates; a flight that goes nowhere reaches nobody |
| Hook.HolderGrabsNobody | src/game/gamecore.cpp:361-361 | a hook that already holds somebody grabs nobody else |
| Hook.AlwaysSound | src/game/gamecore.cpp:190-457 | in every state of every run of ticks from the reset state: hook state in -1..5, and a hooked player only with a grabbed hook whose tick count is at most S + S/5 |
| Hook.TickSound | src/game/gamecore.cpp:190-457 | one tick keeps that, whatever the surroundings are |
| Hook.NewHoldIsNearest | src/game/gamecore.cpp:260-371 | whoever a tick newly holds is the nearest character hit by that tick's flight, which starts at the place of launch if the tick has launched the hook, and else where the hook was |
| Hook.HoldsOnExactly | src/game/gamecore.cpp:405-453 | a hold outlasts a tick if and only if the key is held, the character is there and may be kept, and the time is not up; otherwise the character is let go at once |
| Hook.HoldIsBounded | src/game/gamecore.cpp:445-452 | while somebody is held it is one and the same character, for at most S + S/5 minus the starting count ticks |
| Hook.HoldLastsExactly | src/game/gamecore.cpp:263-453 | in every run, from the launch on: a hold lasts at most S + S/5 ticks less S * (1.25 - duration) without its fraction, and exactly as many if nothing else ends it |
| Hook.IdleIsHome | src/game/gamecore.cpp:276-303 | a hook that is not out is where its character is |
| Hook.DeferredRefreshes | src/game/gamecore.cpp:519-522 | after the deferred tick only a hook on its way counts as teleported; nothing else changes |
| Hook.HeldAfterFlightExactly | src/game/gamecore.cpp:313-453 | after a flight a character is held if and only if it is the nearest that the flight hits, also at the end of its length, may be kept, and has time left |
| Hook.FlightEnds | src/game/gamecore.cpp:313-453 | any other flight: let go at once if and only if somebody was caught, and else retracting, in the ground or on its way, each if and only if, with position and count |
| Hook.RetractsInThree | src/game/gamecore.cpp:304-312 | with the key held, the first retracting state reaches retracted in exactly three ticks and stays there |
| Hook.GraphExactly | src/game/gamecore.cpp:260-453 | the whole state graph: a tick can lead from one hook state to another, with the key up, held or not read, if and only if the graph says so; every way is shown to be open by a hook and its surroundings |
| Character.Character.SetHookedPlayer | src/game/gamecore.cpp:700-722 | sets the hooked player and keeps the relation: i is in j's attached set if and only if i's hooked player is j |
| Character.Character.HandleInput | src/game/gamecore.cpp:260-278 | the input part on the object's own fields and the others' sets is the one of the model, and keeps the relation |
| Character.Character.GrabPlayers | src/game/gamecore.cpp:347-371 | the loop over the characters ends with the search of the model, and keeps the relation |
| Character.Character.EndFlight | src/game/gamecore.cpp:373-402 | the end of a flight that has grabbed nobody, on the ground, at a wall, in a teleporter or in the air, is the one of the model, and keeps the relation |
| Character.Character.FlyOn | src/game/gamecore.cpp:313-403 | the flying branch is the one of the model, and keeps the relation |
| Character.Character.HoldOn | src/game/gamecore.cpp:405-453 | the grabbed part is the one of the model, and keeps the relation |
| Character.Character.Tick | src/game/gamecore.cpp:190-457 | the hook's part of the whole tick is the one of the model, and keeps the relation |
| Character.Character.TickDeferred | src/game/gamecore.cpp:519-522 | the hook's part of the deferred tick is the one of the model, and keeps the relation |
| Character.Character.Read | src/game/gamecore.cpp:620-636 | takes over the hook of a network object and keeps the relation |
| Character.Play | src/game/gamecore.cpp:190-722 | over every run of ticks, deferred ticks, reads and sets by registered characters the relation holds |
| Character.Character.Reset | src/game/gamecore.cpp:147-162 | a reset keeps the relation if and only if no other character hooks this one |
| Character.ResetForgets | src/game/gamecore.cpp:147-162 | a run in which it does not: one character hooks another that is then reset |
| Character.Character.Leave | src/game/server/entities/character.cpp:138-143 | a place that is emptied, and nothing else, as here and at the end of `Die` (line 983), keeps the relation if and only if the character held nobody who is left |
| Character.DeathLeavesNumber | src/game/server/entities/character.cpp:979-986 | a run in which it does not: a character dies while its hook holds another, and that one keeps its number |
| Character.Character.Pause | src/game/server/entities/character.cpp:2289-2296 | a pause empties the place and lets go, and keeps the relation; the own attached set stays as it is |
| Character.Character.Unpause | src/game/server/entities/character.cpp:2301-2305 | a character that returns keeps the relation if and only if its attached set still names just those that hold it, and it holds nobody |
| Character.PauseRemembers | src/game/server/entities/character.cpp:2286-2311 | a run in which it does not: the hook that held the paused character has let go meanwhile |
| Character.Character.Spawn | src/game/server/entities/character.cpp:79-84 | a character that takes an empty place keeps the relation if and only if no hook still names that place |
| Character.SpawnIsHeld | src/game/server/save.cpp:645-646 | a run in which one does: a held character is killed and spawned again before the holder's next tick, and is held without knowing it |
| Jump.AlwaysSound | src/game/gamecore.cpp:227-288 | in every run `m_Jumped` is in 0..3, and at most one air jump is counted, which has then been used up |
| Jump.ReleasedBetweenJumps | src/game/gamecore.cpp:227-258 | between two jumps the key has been seen up |
| Jump.GroundedBetweenAirJumps | src/game/gamecore.cpp:227-288 | between two jumps in the air the character has been on the ground |
| Jump.AllowanceBegins | src/game/server/entities/character.cpp:2126-2152 | with two jumps or more the reset state and every touch of the ground give the whole allowance of air jumps, whatever was before |
| Jump.AlwaysAllowed | src/game/server/entities/character.cpp:2126-2152 | from then on, after every round, the feet are dark if and only if all air jumps are used, and never more than `m_Jumps` - 1 are counted |
| Jump.JumpsExactly | src/game/server/entities/character.cpp:2126-2152 | with two jumps or more, when exactly a tick makes a ground jump or an air jump |
| Jump.AirJumpsAreLimited | src/game/server/entities/character.cpp:2126-2152 | over any stretch of a run without touching the ground, no more air jumps are made than are left |
| Jump.OneJumpIsTheLast | src/game/server/entities/character.cpp:2137-2141 | with one jump, a jump in the air comes after any other jump only if the ground was touched between them |
| Jump.OneJumpExactly | src/game/server/entities/character.cpp:2137-2141 | with one jump: a ground jump if and only if the key goes down on the ground, an air jump if and only if it goes down in the air and the key has been up ever since the character was on the ground |
| Jump.HeldKeyForfeits | src/game/server/entities/character.cpp:2137-2141 | a run in which a character has been on the ground since its jump, with the key still down, and its press in the air is not answered |
| Jump.PressedExactly | src/game/gamecore.cpp:228-258 | for any number of jumps, and from one jump on also with endless ones: a press counts if and only if the key is down and has been seen up since the last jump |
| Jump.MoreJumpsSwallowPress | src/game/server/entities/character.cpp:2142-2146 | a run in which the number of jumps grows while the feet are dark and the key is up, and the next press is not answered |
| Landing.LandsExactly | src/game/collision.cpp:550-588 | a move counts as a landing, and so clears the second jump bit, if and only if its velocity is more than next to nothing and one of its sub-steps, falling and with positive vertical elasticity, bounces off what is below; this ties the bit to the map |
| Landing.JumplessJumpsExactly | src/game/gamecore.cpp:222-254 | over runs on maps, from any state: a character with zero jumps still jumps when the key goes down, if and only if its feet are light, which they are as left from when it lost its jumps, and then exactly after a landing |
| Landing.GroundOnlyJumpsExactly | src/game/gamecore.cpp:222-254 | one with only a ground jump makes it whenever the key goes down on the ground, and still jumps in the air under just these conditions |
| Landing.FlatJumpsAtMostOnce | src/game/gamecore.cpp:530-549 | without vertical elasticity, as tuning ships it, such a character makes at most one jump it is not meant to make, in the very next turn after it has lost its air jumps, with the light feet left from before |
| Landing.FlatOneJumpIsTheLast | src/game/server/entities/character.cpp:2137-2141 | with one jump, and without vertical elasticity, a tick that finds the character on the ground lies between any jump and a later jump in the air |
| Landing.JumpsAfterLosing | src/game/server/entities/character.cpp:1765-1784 | a run with tuning as shipped, on a map: a character stands, a tile takes its jumps away, and it jumps |
| Landing.JumpsAfterLanding | src/game/gamecore.cpp:530-549 | a run with positive elasticity, on a map: a character without jumps and with dark feet falls on the floor and then jumps |
| Jump.EndlessJumpsExactly | src/game/server/entities/character.cpp:2148-2152 | a character that is super or jumps endlessly has light feet after every round and jumps if and only if the key goes down, as the key bit tells it |
| Jump.EndlessWithoutJumps | src/game/server/entities/character.cpp:2126-2152 | one whose number of jumps is 0 or -1 never jumps after its first round, not even on the ground: the rules set the key bit |
| NameInts.StrToInts | src/game/gamecore.cpp:70-88 | packs the bytes of the string four to an integer, zeros behind them, the last byte cleared |
| NameInts.IntsToStr | src/game/gamecore.cpp:90-119 | unpacks all bytes with the last one zero; true if and only if the text is valid UTF-8, otherwise the string is made empty |
| NameInts.UnpackOfPack | src/game/gamecore.cpp:70-119 | unpacking what was packed gives any string of up to 4n - 1 bytes back, followed by zeros |
| NameInts.RoundTrip | src/game/gamecore.cpp:70-119 | the text that comes back is the text packed, for every such string |
| NameInts.SendAndReceive | src/game/gamecore.cpp:70-119 | packing and then unpacking: accepted if and only if the name is valid UTF-8; the buffer then holds the name and zeros, and otherwise an empty string |
| NameInts.PackOfUnpack | src/game/gamecore.cpp:70-119 | conversely, packing what was unpacked gives the integers back if and only if nothing follows the end of the name and the last byte is clear |
| NameInts.LettersPacked | src/test/str.cpp:1203-1206 | a name with letters of one to four bytes is packed into the three integers of the test |
| NameInts.EmptyPacked | src/test/str.cpp:1208-1213 | an empty name is packed into nothing but fill |
| FutureLogger.RunInv | src/base/log.cpp:499-533 | in every interleaving, in every state: every message is accounted for, and the order told so far is the order accepted unless some call overtook |
| FutureLogger.InOnePlace | src/base/log.cpp:499-533 | every logged message is in exactly one place: a caller's hands, the messages waiting for `Set`, or the real logger |
| FutureLogger.QuietHasDelivered | src/base/log.cpp:499-533 | when `Set` is through and all calls have returned, the real logger has had every message exactly once |
| FutureLogger.ReplayedInPendingOrder | src/base/log.cpp:499-515 | once `Set` is through, the pending list is empty for ever, and what it held when the logger was stored has been replayed completely and in its order |
| FutureLogger.OrderKeptExactly | src/base/log.cpp:499-533 | the real logger gets the messages in the order in which they were accepted if and only if no caller used it while `Set` was replaying |
| FutureLogger.HistoryIsTold | src/base/log.cpp:499-533 | in every run, what counts as logged and as accepted is what the steps say: the messages of the calls begun, and of the calls that got through, in order |
| FutureLogger.OneCallersMessagesSwapped | src/base/log.cpp:517-524 | a run in which one caller's own two messages arrive in the wrong order |
| FutureLogger.NeverStuck | src/base/log.cpp:499-533 | while a call is unfinished, some step other than the start of a call is possible |
| FutureLogger.StepsFinishCalls | src/base/log.cpp:499-533 | and every such step brings the unfinished calls nearer to their end, by exactly one |
| FutureLogger.FutureLog.Set | src/base/log.cpp:499-515 | the body of `Set` on the object carries out the steps of the machine: store, replay all, clear; a second time it changes nothing and reports the failed assertion |
| FutureLogger.FutureLog.Look | src/base/log.cpp:519-520 | the first look of `Log`, without the lock, carries out its step and tells which way the call goes |
| FutureLogger.FutureLog.PassOn | src/base/log.cpp:520-524 | the fast path carries out the step that delivers a message, whoever holds the lock |
| FutureLogger.FutureLog.Log | src/base/log.cpp:517-533 | the whole of `Log`, with nobody in between, carries out the look and then the one step or the other |
| FutureLogger.FutureLog.LogLocked | src/base/log.cpp:525-532 | the locked part of `Log` on the object carries out its step, passing on or queueing |
| FutureLogger.ReplaysDeliver | src/base/log.cpp:509-512 | with nobody in between, what `Set` delivers is the pending list in order |
| Color.HueRestores | src/base/color.h:17-35 | the hue of a colour that is not grey tells the order and the proportions of its channels, in every sector and on every border between sectors |
| Color.RgbHslRgb | src/base/color.h:219-273 | RGB to HSL and back is the identity on the whole unit cube, greys, black and white included, through hues in [0, 1) |
| Color.RgbHsvRgb | src/base/color.h:275-299 | RGB to HSL to HSV, and HSV to HSL to RGB, is the identity on the whole unit cube |
| Color.HsvOfRgb | src/base/color.h:282-299 | the detour through HSL gives the greatest channel as value and the chroma's share of it as saturation |
| Color.HslOfRgb | src/base/color.h:219-243 | lightness is half way between the least and the greatest channel, saturation the chroma's share of the room that the lightness leaves |
| Color.PureHues | src/base/color.h:245-273 | red, yellow, green, cyan, blue and magenta stand in this order, a sixth of the circle apart |
| Color.HslHsvHsl | src/base/color.h:275-287 | HSL to HSV and back is the identity if and only if a black or a white has no saturation |
| Color.HsvHslHsv | src/base/color.h:275-287 | HSV to HSL and back is the identity if and only if a black has no saturation |
| Color.SaturatedEndsFade | src/base/color.h:275-287 | a saturated black and a saturated white that come back without saturation |
| Color.SaturatedBlackFades | src/base/color.h:275-287 | a saturated black that comes back without saturation |
| Color.HslRgbHslIs | src/base/color.h:219-273 | what comes back from RGB for every HSL triple: without chroma neither hue nor saturation, the end of the hue circle as its beginning, and all else as it was |
| Color.HueOfGreyLost | src/base/color.h:219-273 | a grey that comes back without its hue |
| Color.HslRgbHsl | src/base/color.h:219-273 | HSL to RGB stays in the unit cube, and is undone by RGB to HSL if and only if the hue is below 1 and a colour without chroma has neither hue nor saturation |
| TileSkip.FindStep | src/game/layers.cpp:197-202 | the inner loop finds the step to the next tile that is not empty, the end of the row, or 255 |
| TileSkip.MarkRow | src/game/layers.cpp:195-206 | the loop over one row, in place, leaves the row of the model and all other tiles alone |
| TileSkip.InitTilemapSkip | src/game/layers.cpp:193-207 | all rows of a layer, in place |
| TileSkip.RowAfterIsGood | src/game/layers.cpp:195-206 | every mark is at most 254, leads over empty tiles only and as far as it can, and the chain of marks ends exactly at the width |
| TileSkip.RowAfterKeeps | src/game/layers.cpp:204-204 | nothing but skips of columns from 1 on has changed |
| TileSkip.WalkMeetsAll | src/game/layers.cpp:195-206 | the walk by skips meets just the non-empty tiles that a scan of all columns meets, once each and in order |
| TileSkip.WalkAscends | src/game/layers.cpp:205-205 | the walk visits its columns in ascending order, none of them twice |
| TileSkip.RowIsWalkable | src/game/layers.cpp:193-207 | a row as the loops leave it: right marks, a walk in ascending order that meets just what a scan meets, and column 0 as it was |
| TileSkip.PassedIsEmpty | src/game/layers.cpp:195-206 | a column the walk does not meet is empty |
| TileSkip.WalkIsShort | src/game/layers.cpp:197-205 | apart from its first column the walk stops at an empty tile at most once every 255 columns |

## Left out

- Release: the deletion of the object is a returned flag, since the memory itself is not modelled.
- Seed: the textual description that the generator prints about itself is not modelled.
- NextBufferSize: does not model 32-bit overflow of the doubled size; sizes are natural numbers, so queues of 2 GiB and more are outside the model.
- Decode: what a failing Base64 decode has already written to the buffer is left open.
- MoveBox: does not model float rounding, so the exit for a fraction too small to have an effect coincides with the exit for a velocity of zero; distances beyond the range of `int` are outside the model.
- GetTile: maps of width or height zero with tiles are outside the model, as the clamp in the code needs at least one cell.
- RgbToHsl: colours outside the unit cube on which the code divides by zero are outside the model; the round trips are stated on the unit cube.
- Tick: velocity, direction, angle and the drag of a grabbed hook are not modelled; the flight of a tick (its end, whether it is too long, what the line hits) and the positions of the other characters are inputs, arbitrary in every tick. A character always has a world.
- TickDeferred: only the flag of the teleported hook is modelled, not the forces between characters.
- Read: the index of the hooked player is -1 or a place of the world; the code would read outside its array otherwise. Position, velocity and jump bits of the network object are not modelled.
- Pause: a pausing character that holds somebody also makes the others let go of it; here they do so by steps of their own, at any time.
- Spawn: moving characters between worlds is not modelled, nor are writes to the hook from outside the core (endless hook, saving and loading a team).
- Set: calling `Set` twice is a failed assertion and changes nothing here; memory orders of the atomic pointer are modelled as sequential consistency.
- InitTilemapSkip: one layer; the loops over groups and layers only repeat it.
- Rules: tiles that refill or stop jumps are not modelled; a run can start in any state they leave.
- Turn: a move may start anywhere and at any speed, not only where the last one ended, so the results hold for more runs than there are; a collision with another character, which can end a move early, does not touch the jump bits.
- The maximal number of clients and the tick speed are parameters of the world, as the header that defines them is not part of this model.
- The writer's file accepts every byte: results of writes and flushes, and the error that `aio_error` reports, are not modelled.
- Threads are scheduled arbitrarily; that a thread which can step eventually does is not stated.
- `aio_write_newline`, other string functions, hashing with other libraries, MD5, and hexadecimal strings are easy or repeat what is here.
- Sockets, files, directories, processes, clocks, locale, and the Windows and macOS branches are operating system calls.
- Line intersection, teleporters, switches, movement restrictions, tuning, teams and the velocity ramp enter as inputs or not at all.
- Packing of colours into integers and the other colour helpers are arithmetic of one line each.
