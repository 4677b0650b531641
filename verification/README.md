# Proofs about the TrueNAS Rust utility crates

A Dafny model of the parts of the TrueNAS utility crates in which a mistake would be hardest to see: an XDR
codec with borrowed views, a stepped PAM exchange and the login sequence above it, an LMDB environment pool with
its transactions and walks, NSS enumeration, the framing of JSON-RPC streams, and three arithmetic cores. Every
theorem is for all inputs, all runs or all reachable states. Where a property that one would expect fails, a lemma
gives the inputs it fails on and a theorem the exact condition; those inputs are listed below. The worked examples of
the standards (`Example`, `WordExamples`, `Kerberos`, `WrittenOut`) are at one input as well.

- `Wire`, `Utf8`, `XdrSchema`, `XdrDecode`: bytes, schemas and values, the canonical encoding `Enc` of RFC 4506 and the
  type-driven decoder `Dec`, which says what is read, how many bytes it takes and which error stops it. A schema may
  name recursive types; nesting is bounded by a budget, as in the crate.
- `XdrLocal`, `XdrDepth`, `XdrCanon`, `XdrRoundTrip`, `XdrRecut`: a decode depends only on the bytes it takes; how
  much nesting it needs depends on nothing else; what decodes encodes again; what encodes decodes again, and exactly
  when; the same for bytes cut out of their input.
- `XdrFormat`, `XdrCut`: the bytes of each type as section 4 of RFC 4506 writes them, what each mode makes of other
  bytes, and what becomes of input that stops short.
- `XdrDeserializer`, `XdrSerializer`: the two sides as the mutable objects they are, with a cursor, a depth and
  one-shot marks that one call leaves for the next, proved to do what `Dec` and `Enc` say.
- `XdrBorrow`, `XdrList`, `XdrUnion`, `MetaFmt`: borrowed arrays and lists, unions, and a record format on top.
- `PamStep`, `PamAuth`: the driver and worker of a stepped authentication as one state machine over every
  interleaving of their steps, and the stage machine of the login sequence as a class.
- `MdbPool`, `MdbTxn`, `MdbJoin`, `MdbWalk`: environment slots, per-thread transaction slots, the two machines
  together, and the ordered prefix walk.
- `NssEnum`, `NssLookup`: enumeration claims over every interleaving of threads; buffer growth and group lists.
- `JsonFrame`, `JsonBuild`: the framing scanner against JSON texts with any layout, and the frames that are built.
- `CivilDate`, `SipHash`, `OidDecode`: dates, SipHash-2-4, and BER object identifiers.

Code that changes fields or loops is a class or a method proved against a specification function, and the
properties are lemmas about that function. Code whose difficulty is the interleaving of threads (`step.rs`,
`env.rs`, the guards of `txn.rs` and `iter.rs`, the slots of `service.rs`) is a state machine: `Enabled` and `Do`
give its steps, `Run` its runs, and each theorem is about every state a run reaches. Rust's ownership rules enter as
conditions on the steps: a borrowed `Env` is neither dropped nor moved, one that was moved into an iterator is nobody
else's, and a guard stays on its thread. In `MdbTxn` the close of an environment waits until no `Env` holds it.
`MdbJoin` proves that every close of the pool meets that condition, and runs the two machines together with the pool's
own condition alone.

Where the code does less than its documentation suggests, the model follows the code, and the exact condition is
proved.

- An array whose elements take no bytes does not come back from its own encoding (`EmptyElementsDoNotRoundTrip`,
  `EmptyElementsDoNotIterate`), and `Reads` is the condition under which a value does.
- A borrowed array or list that `from_encoded` accepted can be refused when its own encoding is decoded: it is checked
  at depth 0 and decoded two levels down, so elements near the default limit are lost (`XdrBorrow.BuiltTooDeep`,
  `XdrList.BuiltTooDeep`). `BuiltReads` and `BuiltNests` say exactly at which depths one comes back.
- Credentials can outlive a session: `login` and `logout` go on when the stack refuses to revoke them
  (`RefusedRevocationAtLogin`, `RefusedRevocationAtLogout`), and a panic in the caller's conversation unwinds past the
  revocation (`PanicAtLogin`). `KeptOutside` and `KeptInside` say exactly when they are held in every state, and
  `TogetherUnlessParted` which answers of the stack part them from the session.
- After a panic raised through `begin` or `respond` and caught, the stage stays `Authenticating` without a prompt in hand
  (`PanicLeavesTheStage`); `Parked` with `EndedByPanic` says that nothing else leaves it so. No source of such a panic is
  known: the conversation of an exchange is the crate's own channel, which raises none.
- Two process-scoped NSS services can stop two threads for good (`TwoCanDeadlock`), and one cannot (`NoDeadlock`).

## Model

| member | source | states |
|---|---|---|
| Wire.WordOrder | truenas_xdr/src/ser.rs:42-44 | A word spells its number highest byte first, and words are in order exactly as their bytes are, which no other order of the four bytes satisfies |
| Wire.HyperOrder | truenas_xdr/src/ser.rs:46-48 | The same for eight bytes |
| Utf8.ValidMeans | truenas_xdr/src/de.rs:171-178 | Bytes pass the test for strings exactly when they are the encodings of scalar values, one after another |
| XdrFormat.ScalarBytes | truenas_xdr/src/ser.rs:109-145 | A number takes four or eight bytes and is written highest byte first, in two's complement |
| XdrFormat.KindRanges | truenas_xdr/src/de.rs:204-246 | What a number of each kind can be is what its Rust type holds |
| XdrFormat.ScalarReads | truenas_xdr/src/de.rs:204-246 | A word is read as a number exactly when it is the encoding of one of that kind, and is out of range otherwise |
| XdrFormat.BoolBytes | truenas_xdr/src/de.rs:160-169 | A boolean is the word 0 or 1; leniently any word but 0 is true, and strictly no other word is accepted |
| XdrFormat.OpaqueBytes | truenas_xdr/src/de.rs:119-131 | Opaque bytes are filled up with zeros; leniently the fill may be anything, and strictly it must be zeros |
| XdrFormat.CountedBytes | truenas_xdr/src/ser.rs:146-160 | Strings and opaque bytes are behind their length, and a string encodes exactly when it is one of scalar values |
| XdrFormat.OptionalBytes | truenas_xdr/src/ser.rs:162-171 | Optional data is the word 0, or the word 1 and the data |
| XdrFormat.ArrayBytes | truenas_xdr/src/ser.rs:211-215 | An array is its count and its elements, each behind those before it |
| XdrFormat.TagBytes | truenas_xdr/src/ser.rs:179-209 | An enum or union begins with its discriminant |
| XdrFormat.BoundBytes | truenas_xdr/src/de.rs:133-139 | A length over its bound is refused on both sides with the same error, by the decoder before what it covers |
| XdrFormat.CountBytes | truenas_xdr/src/de.rs:309-329 | A count that the rest of the input cannot hold is refused with what it falls short by |
| XdrFormat.Trailing | truenas_xdr/src/lib.rs:206-218 | A value with bytes after it is refused by a decode of the whole input, which reports how many |
| XdrFormat.Example | truenas_xdr/tests/rfc4506.rs:541-577 | The worked example of section 7 of RFC 4506 has the bytes printed there |
| XdrCut.CutShort | truenas_xdr/src/de.rs:92-104 | Every value cut before its last byte, in any mode and at any depth, is refused because bytes are missing, and never for more of them than are if array elements take up room |
| XdrRoundTrip.RoundTrip | truenas_xdr/src/de.rs:188-413 | For every schema, value with an encoding, mode, nesting budget and following bytes: decoding gives back the value and takes exactly its bytes if and only if `Reads` holds |
| XdrRoundTrip.OwnedRoundTrip | truenas_xdr/src/lib.rs:206-234 | For owned types whose array elements take up room the round trip holds if and only if the value nests within the limit and, in strict mode, no string holds a NUL |
| XdrRoundTrip.OwnedReads | truenas_xdr/src/de.rs:309-329 | For those types the condition for reading back is depth and NULs alone, whatever follows |
| XdrRoundTrip.EmptyElementsDoNotRoundTrip | truenas_xdr/src/de.rs:309-329 | A `Vec<()>` of one element encodes and its encoding is refused |
| XdrRoundTrip.TagBack | truenas_xdr_derive/src/lib.rs:188-253 | The discriminant an arm is written with selects that arm again |
| XdrRoundTrip.ArrayIff | truenas_xdr/src/wrappers.rs:556-609 | A borrowed array comes back from its encoding if and only if its stored bytes hold exactly its elements where it stands |
| XdrRoundTrip.ListIff | truenas_xdr/src/wrappers.rs:800-877 | The same for a borrowed list |
| XdrCanon.Canon | truenas_xdr/src/de.rs:119-178 | What decodes, in either mode, encodes again to as many bytes as were read; to the very same bytes in strict mode, and for borrowed arrays and lists in any mode |
| XdrCanon.CanonTag | truenas_xdr_derive/src/lib.rs:320-518 | The arm a discriminant selects encodes with that discriminant, and no default arm takes one that has an owner |
| XdrLocal.Local | truenas_xdr/src/de.rs:92-104 | A decode depends only on the bytes it takes: other bytes after them, more nesting or less strictness change nothing, and neither does cutting the input there if array elements take up room |
| XdrLocal.ElemsTakeUnits | truenas_xdr/src/de.rs:309-329 | Elements of types that take up room take at least one unit each, which the count check relies on |
| XdrDepth.Depth | truenas_xdr/src/de.rs:75-90 | A value that was read, read again with less nesting, is the same or is refused for the nesting and nothing else, and which of the two does not depend on the mode or on the bytes after it |
| XdrDepth.DepthElems | truenas_xdr/src/de.rs:75-90 | The same for a run of elements |
| XdrRecut.Recut | truenas_xdr/src/wrappers.rs:934-951 | A value once read, in any mode and at any depth, is read again leniently from other input that starts with its bytes if and only if `Reads` holds there |
| XdrDeserializer.Deserializer.constructor | truenas_xdr/src/de.rs:49-67 | A new decoder is at the start, at depth zero, with no mark waiting |
| XdrDeserializer.Deserializer.Deserialize | truenas_xdr/src/de.rs:188-413 | One value: the result or error of `Dec` under a pending bound, the cursor moved by exactly what was read, depth and the outer span mark restored, and no mark left behind |
| XdrDeserializer.Deserializer.Descend | truenas_xdr/src/de.rs:77-90 | A level is entered, and refused exactly beyond the limit |
| XdrDeserializer.Deserializer.Take | truenas_xdr/src/de.rs:92-104 | The next bytes if the input has them; otherwise how many are missing, with the cursor unmoved |
| XdrDeserializer.Deserializer.TakePad | truenas_xdr/src/de.rs:119-131 | Padding up to a unit, which only strict mode looks into |
| XdrDeserializer.Deserializer.CheckBound | truenas_xdr/src/de.rs:133-139 | The bound waiting is applied to this length and is gone, whether or not the length passes |
| XdrDeserializer.Deserializer.TakeOpaque | truenas_xdr/src/de.rs:141-158 | A counted body, held to its bound before any of it is read |
| XdrDeserializer.Deserializer.TakeBool | truenas_xdr/src/de.rs:160-169 | Any non-zero word is true unless strict, where only 1 is |
| XdrDeserializer.Deserializer.DeserializePrim | truenas_xdr/src/de.rs:204-283 | Every type without parts reads what `Dec` says, with its bound if it has one |
| XdrDeserializer.Deserializer.DeserializeOption | truenas_xdr/src/de.rs:264-276 | A boolean and, one level down, the value behind a true one |
| XdrDeserializer.Deserializer.DeserializeNewtype | truenas_xdr/src/de.rs:288-307 | A newtype is one level; under the fixed-opaque name its mark is consumed by the very next call |
| XdrDeserializer.Deserializer.EnterSeq | truenas_xdr/src/de.rs:309-329 | A count is held first to its bound, then to a quarter of the input left, then to the depth limit, and the elements follow |
| XdrDeserializer.Deserializer.DeserializeSeq | truenas_xdr/src/de.rs:309-329 | Counted elements, kept or only counted, read alike |
| XdrDeserializer.Deserializer.DeserializeTuple | truenas_xdr/src/de.rs:331-346 | Raw bytes, fields, a union or a list, as the visitor and the pending mark say |
| XdrDeserializer.Deserializer.DeserializeTupleStruct | truenas_xdr/src/de.rs:348-375 | One level that sets a bound, marks a span and puts the outer one back, or reads fields |
| XdrDeserializer.Deserializer.DeserializeStruct | truenas_xdr/src/de.rs:381-392 | One level of fields |
| XdrDeserializer.Deserializer.DeserializeEnum | truenas_xdr/src/de.rs:394-408 | A stock enum: the index is read before its level is entered |
| XdrDeserializer.Deserializer.VisitRef | truenas_xdr/src/wrappers.rs:580-609 | A borrowed array or list: its count, and exactly the input read since its start |
| XdrDeserializer.Deserializer.VisitElems | truenas_xdr/src/de.rs:415-440 | The element loop reads what the specification reads, element by element |
| XdrDeserializer.Deserializer.VisitCount | truenas_xdr/src/wrappers.rs:612-636 | The counting loop accepts, refuses and takes exactly what the keeping one does |
| XdrDeserializer.Deserializer.VisitFields | truenas_xdr/src/de.rs:422-434 | The field loop reads the fields in order |
| XdrDeserializer.Deserializer.VisitArm | truenas_xdr_derive/src/lib.rs:489-518 | A union: its discriminant is the first element, and the declared count never cuts an arm short |
| XdrDeserializer.Deserializer.VisitListCount | truenas_xdr/src/wrappers.rs:848-877 | The list loop, given `usize::MAX` elements, ends at the boolean of 0 after at most one step for each unit of input, and on an error after at most one more |
| XdrDeserializer.Front | truenas_xdr/src/de.rs:49-73 | A decoder of any mode and depth reads the value of `Dec` from the front of its input and leaves exactly the rest |
| XdrDeserializer.FromPrefix | truenas_xdr/src/lib.rs:219-234 | The value at the front of the input and exactly the tail after it |
| XdrDeserializer.FromBytes | truenas_xdr/src/lib.rs:200-217 | Success exactly when the value takes up the whole input |
| XdrSerializer.Serializer.constructor | truenas_xdr/src/ser.rs:27-34 | A new encoder has no mark waiting |
| XdrSerializer.Serializer.Serialize | truenas_xdr/src/ser.rs:98-265 | One value: `Enc` of it is appended to the sink, or its error is given, and no mark is left behind |
| XdrSerializer.Serializer.PutLen | truenas_xdr/src/ser.rs:53-65 | A length is held to its own bound and to 32 bits, and the bound is gone either way |
| XdrSerializer.Serializer.PutBody | truenas_xdr/src/ser.rs:67-82 | A body and the zeros that bring it to a unit |
| XdrSerializer.Serializer.SerializeBytes | truenas_xdr/src/ser.rs:153-160 | Bytes with or without a length, as the pending mark says |
| XdrSerializer.Serializer.SerializeSeq | truenas_xdr/src/ser.rs:211-215 | A count and every element in order, for every sink |
| XdrSerializer.Serializer.SerializeElems | truenas_xdr/src/ser.rs:267-289 | The elements alone, each behind the one before, up to the first that fails |
| XdrSerializer.Serializer.SerializeFields | truenas_xdr/src/ser.rs:217-260 | Fields in order, with nothing between them |
| XdrSerializer.Serializer.SerializeTagged | truenas_xdr_derive/src/lib.rs:460-468 | An arm behind its discriminant; a default arm that carries another arm's is refused |
| XdrSerializer.Serializer.SerializeArrayRef | truenas_xdr/src/wrappers.rs:556-564 | A borrowed array is written as its count and its stored bytes |
| XdrSerializer.Discriminant | truenas_xdr/src/lib.rs:137-147 | The discriminant of a default arm is got by encoding its first field into four bytes, and only values whose encoding is one unit have one |
| XdrSerializer.ToBytes | truenas_xdr/src/lib.rs:168-176 | The bytes are the canonical encoding |
| XdrSerializer.SerializedSize | truenas_xdr/src/lib.rs:188-194 | The size is the length of the encoding, a whole number of units, and fails with the same error |
| XdrBorrow.BorrowedArray | truenas_xdr/src/wrappers.rs:556-609 | One level deeper, a borrowed array is accepted and refused as the `Vec` is, with the same error and the same bytes, encodes to those bytes in either mode, and iterates to the same elements if and only if they can be read with nothing after them |
| XdrBorrow.BorrowedArrayIterates | truenas_xdr/src/wrappers.rs:934-951 | With elements that take up room the iteration always yields exactly the elements of the `Vec`, nested borrowed arrays included |
| XdrBorrow.EmptyElementsDoNotIterate | truenas_xdr/src/wrappers.rs:934-951 | With elements that take none an array can decode and then fail to iterate |
| XdrBorrow.ItemsAreElems | truenas_xdr/src/wrappers.rs:934-951 | Iteration yields a list and nothing else exactly when the whole run of elements reads as that list |
| XdrBorrow.ItemsToError | truenas_xdr/src/wrappers.rs:934-951 | Where the run does not read, iteration yields the elements before the one that fails, then the error of reading the run, and no more |
| XdrBorrow.VarArrayIter.Next | truenas_xdr/src/wrappers.rs:937-951 | Each step yields the next item and leaves the others; an error is the last |
| XdrBorrow.FromEncoded | truenas_xdr/src/wrappers.rs:458-483 | Accepts exactly bytes that hold that many elements and nothing more, strictly and within the default nesting |
| XdrBorrow.BuiltReads | truenas_xdr/src/wrappers.rs:451-489 | An array that was built iterates to the elements it was built from and encodes to its count and bytes; decoding that, at any depth, in either mode and with any bytes after, gives it back if and only if its elements pass the same test at two levels less, and otherwise reports the nesting limit |
| XdrBorrow.BuiltNests | truenas_xdr/src/wrappers.rs:451-489 | For owned elements with room that condition is the nesting of the deepest element plus two |
| XdrBorrow.BuiltTooDeep | truenas_xdr/src/wrappers.rs:458-479 | An element that nests to the default limit, or one level less, passes when the array is built and is refused by every decoder with the default limit |
| XdrList.BorrowedList | truenas_xdr/src/wrappers.rs:807-845 | A borrowed list and the recursive chain of section 4.19 of RFC 4506 decode from the same bytes, the list with two levels however long it is; iterating over it yields exactly the chain's elements if and only if they can be read with only the end of the list after them |
| XdrList.ItemsAreSomes | truenas_xdr/src/wrappers.rs:895-915 | Iteration yields a list and nothing else exactly when that many present optionals read as that list |
| XdrList.ListItemsToError | truenas_xdr/src/wrappers.rs:895-915 | Iteration yields every element, or those before the first link that fails and one error: that link's, or a missing element where the list ends early |
| XdrList.ListIsChain | truenas_xdr/src/wrappers.rs:848-877 | Whatever the loop reads is the chain, given two levels for each element |
| XdrList.ChainIsList | truenas_xdr/src/wrappers.rs:848-877 | Whatever the chain reads the loop reads, at the chain's first level |
| XdrList.BorrowedListIterates | truenas_xdr/src/wrappers.rs:895-915 | With elements whose own arrays take up room the iteration always yields exactly the elements of the chain |
| XdrList.ListIter.Next | truenas_xdr/src/wrappers.rs:895-915 | Each step yields the next item and leaves the others; an error is the last |
| XdrList.FromEncoded | truenas_xdr/src/wrappers.rs:707-726 | Accepts exactly bytes that are one whole list, and encodes back to them |
| XdrList.BuiltReads | truenas_xdr/src/wrappers.rs:707-726 | A list that was built iterates to the elements it was built from and encodes to its own bytes; decoding them, at any depth, in either mode and with any bytes after, gives it back if and only if it passes the same test at two levels less, and otherwise reports the nesting limit |
| XdrList.BuiltNests | truenas_xdr/src/wrappers.rs:707-726 | For owned elements that condition is the nesting of the deepest present optional plus two |
| XdrList.BuiltTooDeep | truenas_xdr/src/wrappers.rs:707-726 | An element that nests to one or two levels less than the default limit passes when the list is built and is refused by every decoder with the default limit |
| XdrUnion.Discriminants | truenas_xdr_derive/src/lib.rs:88-102 | Each variant has the number written or one more than the one before, and a number at the top of the range is refused |
| XdrUnion.NumberMeans | truenas_xdr_derive/src/lib.rs:88-102 | A number is counted on from the last one written, or from 0 |
| XdrUnion.HasDefaultArm | truenas_xdr_derive/src/lib.rs:163-186 | A default arm is accepted exactly in last place, without a number and with a field |
| XdrUnion.ExpandUnion | truenas_xdr_derive/src/lib.rs:320-458 | The union a declaration stands for, refused exactly for its numbers or its default arm |
| XdrUnion.ArmComesBack | truenas_xdr_derive/src/lib.rs:320-518 | A value that encodes comes back as itself exactly where nesting and counts let it be read, and as no other arm ever |
| XdrUnion.DefaultArm | truenas_xdr_derive/src/lib.rs:188-253 | Every discriminant without an owner that the first field can hold decodes to the default arm and encodes again identically |
| XdrUnion.OwnedDiscriminant | truenas_xdr_derive/src/lib.rs:188-253 | A default value encodes if and only if its other fields do and the decoder, given its discriminant, takes the default arm with the same first field; one with another arm's discriminant is refused whatever its fields |
| MetaFmt.PackedBytes | truenas_metafmt/src/lib.rs:244-260 | A record packs exactly when its strings are within bounds and hold no NUL, to the magic, the version and the body |
| MetaFmt.RecordBytes | truenas_metafmt/src/lib.rs:32-57 | Every record is the bytes `TNMF`, version 1 and the fields of the wire format in its order |
| MetaFmt.PackRefuses | truenas_metafmt/src/lib.rs:244-260 | Settings do not pack because of a NUL, or else because of the first string over its bound, whose length is reported |
| MetaFmt.CutRecord | truenas_metafmt/src/lib.rs:272-289 | A record cut anywhere is refused because bytes are missing |
| MetaFmt.PackThenUnpack | truenas_metafmt/src/lib.rs:244-287 | No record is written that cannot be read |
| MetaFmt.UnpackThenPack | truenas_metafmt/src/lib.rs:262-287 | Bytes that unpack are the bytes that packing gives |
| MetaFmt.SameMeansSameBytes | truenas_metafmt/src/lib.rs:289-301 | The verdict is `Same` exactly when the stored bytes are what the wanted settings pack to |
| MetaFmt.VerdictMeans | truenas_metafmt/src/lib.rs:291-303 | Each verdict in both directions: unstamped without bytes, the same or differing settings by the record they pack to, newer by the magic and the version word, unreadable when it is neither, and not a record by those two words |
| PamStep.Safe | truenas_pam/src/step.rs:203-388 | In every reachable state one party holds the transaction, the stack does while the module runs, and wherever the worker leaves it the caller's conversation is back; the branches for a vanished worker are never taken |
| PamStep.AnswersReachTheirPrompts | truenas_pam/src/step.rs:84-97 | The i-th answers accepted are what the i-th conversation returns for the i-th prompt shown; at most the last is on its way, and all other conversations were cancelled |
| PamStep.VerdictIsWhole | truenas_pam/src/step.rs:301-352 | A verdict that a step reports rests on an exchange in which every prompt was shown and answered |
| PamStep.NothingIsMadeUp | truenas_pam/src/step.rs:207-352 | Over every run the log has what the module asked and the answers given at its prompts, as they were, and the worker brings back the verdict that the module returned |
| PamStep.VerdictIsTheModules | truenas_pam/src/step.rs:301-352 | The caller is told success, a refusal or a panic exactly when the module returned it, with its own code |
| PamStep.OnlyALimitTimesOut | truenas_pam/src/step.rs:301-330 | Nothing times out unless a call asked for a limit |
| PamStep.FailedBegin | truenas_pam/src/step.rs:193-257 | A worker that cannot start leaves nothing running; `begin_recover` leaves the transaction with the caller and `begin` ends it |
| PamStep.StepsOfAnExchange | truenas_pam/src/step.rs:265-328 | A call in sequence leaves the exchange parked at a prompt, stopped by a timeout or ended with a verdict, and says which |
| PamStep.NothingAfterTimeout | truenas_pam/src/step.rs:301-328 | After a timeout no answer is accepted, no prompt is shown, and every conversation that returns is cancelled |
| PamStep.CallsReturn | truenas_pam/src/step.rs:330-388 | No call deadlocks: with no new call the threads take at most nine steps and three for each conversation the module holds, six once it has returned, and where they can take no more the call has returned |
| PamStep.OnlyTheModule | truenas_pam/src/step.rs:330-388 | A driver in a call waits for nothing but the module |
| PamStep.FinishReturns | truenas_pam/src/step.rs:354-388 | `finish` gives back the transaction that went in, however the exchange ended, unless a panic is still to be raised; `Drop` ends it; a step reports the module's own verdict |
| PamStep.FinishAfterEnd | truenas_pam/src/step.rs:354-372 | `finish` of an exchange whose verdict was reported gives the transaction back and raises nothing |
| PamAuth.MovesCoverExchange | truenas_pam/src/auth.rs:262-292 | Whatever the stepped exchange does in a call is one of the moves that the login sequence is proved over |
| PamAuth.Authenticator.constructor | truenas_pam/src/auth.rs:90-97 | The sequence starts with the transaction in hand and nothing run |
| PamAuth.Authenticator.Begin | truenas_pam/src/auth.rs:135-162 | Starts from `Start` or `Failed` with the transaction in hand; a refusal changes nothing, and a failed spawn keeps the transaction |
| PamAuth.Authenticator.Respond | truenas_pam/src/auth.rs:168-173 | Answers only while authentication is under way |
| PamAuth.Authenticator.Step | truenas_pam/src/auth.rs:262-292 | A prompt, a verdict, a timeout or a panic each leave their own stage and holder |
| PamAuth.Authenticator.Settle | truenas_pam/src/auth.rs:296-308 | The transaction is taken back from the exchange and the stage recorded |
| PamAuth.SettleGetsItBack | truenas_pam/src/auth.rs:296-308 | The exchanges that are settled have ended, and finishing one of those always gives its transaction back |
| PamAuth.Authenticator.AcctMgmt | truenas_pam/src/auth.rs:184-192 | Only after authentication; a refusal, a failed conversation or a panic in one leaves the stage |
| PamAuth.Authenticator.Login | truenas_pam/src/auth.rs:199-212 | Only after the account check; a revocation is asked for when the session does not open, and a panic cuts the call short where it is raised |
| PamAuth.Authenticator.Logout | truenas_pam/src/auth.rs:218-229 | Closes and revokes whatever either returns and reports the first error; a panic cuts the call short and leaves the stage |
| PamAuth.StackCallsTell | truenas_pam/src/auth.rs:185-230 | After every run, `acct_mgmt`, `login` and `logout` are refused exactly out of the guide's order; in it they make their operations in order, the caller is told of the first that went wrong, and the stage moves on exactly with a success |
| PamAuth.ExchangeCallsTell | truenas_pam/src/auth.rs:135-172 | After every run, `begin` and `respond` are refused exactly where no exchange can begin or no prompt waits; otherwise the caller is told what the exchange came to, and `Done` exactly when the user becomes authenticated |
| PamAuth.SessionNeedsAll | truenas_pam/src/auth.rs:175-212 | Over every run of calls a session is asked for only straight after credentials were granted, that only after the account was found usable, and that only after the last authentication succeeded |
| PamAuth.KeptOutside | truenas_pam/src/auth.rs:194-229 | Over every run, outside a session, the stack holds credentials exactly when since it last granted them it refused every revocation tried, or none was tried because the login was cut short |
| PamAuth.KeptInside | truenas_pam/src/auth.rs:214-229 | Over every run, in a session, it holds them unless a logout was cut short by a panic in the very call that revoked them |
| PamAuth.TogetherUnlessParted | truenas_pam/src/auth.rs:194-229 | All through a run credentials are held exactly while a session is open, if and only if at no call do the stack's answers part the two: a grant with neither a session nor a revocation, a logout whose revocation is refused, or one that revokes and unwinds |
| PamAuth.RefusedRevocationAtLogin | truenas_pam/src/auth.rs:205-208 | A session that does not open and a revocation that is refused leave credentials without a session |
| PamAuth.RefusedRevocationAtLogout | truenas_pam/src/auth.rs:224-228 | A revocation that is refused at logout leaves credentials after the end |
| PamAuth.PanicAtLogin | truenas_pam/src/txn.rs:524-549 | A panic in the conversation while the session opens leaves credentials without a session |
| PamAuth.Parked | truenas_pam/src/auth.rs:135-308 | Over every run the transaction is never lost, and authentication is under way exactly when the exchange is parked at a prompt, but for a caught panic |
| PamAuth.EndedByPanic | truenas_pam/src/auth.rs:262-292 | An exchange that ended while still held was left so by a panic, and nothing changed since |
| PamAuth.PanicLeavesTheStage | truenas_pam/src/auth.rs:262-292 | A panic in the first round leaves the stage `Authenticating` with nothing parked |
| PamAuth.RetryUnlessTimedOut | truenas_pam/src/auth.rs:123-162 | From `Failed` a fresh attempt starts, unless a timed-out round still holds the transaction; then it is refused and nothing changes |
| PamAuth.ScanMeans | truenas_pam/src/auth.rs:5-14 | Following the guide's order means what it should about the calls made before each one |
| MdbPool.OneHandlePerPath | truenas_mdb/src/env.rs:185-201 | In every reachable state LMDB has at most one handle open on a path |
| MdbPool.LiveEnvs | truenas_mdb/src/env.rs:250-323 | A free slot counts exactly its live `Env`s and is null exactly when there are none; a live `Env` always holds its slot's handle, which is open |
| MdbPool.ClosedOnce | truenas_mdb/src/env.rs:462-480 | No handle is closed twice, one is closed only when no `Env` holds it and no call is left on any, and an abandoned slot has closed every handle it had, failed opens included |
| MdbPool.LocksAreLeft | truenas_mdb/src/env.rs:203-210 | Whoever is inside a slot's lock can go on and comes closer to the way out with every step; a free lock lets any waiting call in |
| MdbPool.SlotInvKept | truenas_mdb/src/env.rs:448-480 | Every step of open, failed open, clone and drop keeps the slot's invariant |
| MdbTxn.ReleasedIs | truenas_mdb/src/txn.rs:64-80 | Releasing an entry takes out that environment and nothing else, and no duplicate appears |
| MdbTxn.Active.Claim | truenas_mdb/src/txn.rs:51-62 | A slot is refused exactly when the thread's list has it, and is added otherwise |
| MdbTxn.Active.Release | truenas_mdb/src/txn.rs:64-80 | The last entry for the environment goes, and the final one takes its place |
| MdbTxn.OneEach | truenas_mdb/src/txn.rs:124-145 | In every reachable state, between calls, a thread's list is exactly the environments it has a live transaction on, once each, and a begin is refused exactly when one is live there |
| MdbTxn.NeverNested | truenas_mdb/src/txn.rs:124-145 | `mdb_txn_begin` is called only where the thread has no live transaction on that environment |
| MdbTxn.FinishedOnce | truenas_mdb/src/txn.rs:147-169 | No transaction is finished twice, one whose guard is gone was finished exactly once whether its commit worked, failed or never came, and LMDB's commit and abort are called only on one that is not finished and has no cursor open |
| MdbTxn.OpenWhileInUse | truenas_mdb/src/iter.rs:37-68 | Behind every transaction and cursor, in any thread and however far an iterator's drop has got, there is a live `Env`, so the environment is open and cannot be closed |
| MdbJoin.PoolStep | truenas_mdb/src/env.rs:448-480 | In every reachable state of the pool, and for any transactions with the same live `Env`s, each open, clone and close of the pool is a step the transactions' machine allows, and every step keeps the two in agreement |
| MdbJoin.OpenInThePool | truenas_mdb/src/iter.rs:37-68 | Over every run of the pool and the transactions together, a live transaction's `MDB_env` is open in the pool, has never been closed, and has a live `Env` |
| MdbWalk.PrefixWalk | truenas_mdb/src/txn.rs:217-251 | Over any database in key order a prefix walk yields exactly the entries with the prefix, in order and once each; an empty prefix yields all |
| MdbWalk.WalkFrom | truenas_mdb/src/db.rs:266-274 | A walk from a start yields exactly the entries whose key is not before it, in order |
| MdbWalk.AtOrAfterIs | truenas_mdb/src/db.rs:266-274 | Membership in that walk |
| MdbWalk.LessMeans | truenas_mdb/src/txn.rs:217-251 | A key is before another when it is a proper beginning of it or has the smaller byte where they first differ |
| MdbWalk.FilterIs | truenas_mdb/src/db.rs:276-288 | An entry is yielded exactly when it is stored and its key starts with the prefix |
| MdbWalk.Iter.constructor | truenas_mdb/src/iter.rs:50-68 | What is to come is the whole walk |
| MdbWalk.Iter.Step | truenas_mdb/src/txn.rs:192-215 | The cursor lands on the first entry, the first at or after a key, or the next |
| MdbWalk.Iter.Walk | truenas_mdb/src/txn.rs:228-251 | A step yields the first entry still to come and leaves the others |
| MdbWalk.Iter.Next | truenas_mdb/src/iter.rs:75-109 | The iterator yields what is to come in order, reports a fault once, and stays exhausted after a fault or the end |
| MdbWalk.CollectPrefix | truenas_mdb/src/db.rs:320-323 | Collecting a prefix iterator gives exactly the entries with the prefix |
| MdbWalk.Scan | truenas_mdb/src/db.rs:392-411 | The callback sees the walk's entries in order, up to the first it breaks on or the step at which LMDB reports a fault, which is returned |
| NssEnum.OneReader | truenas_nss/src/service.rs:757-792 | In every reachable state no two iterators that are open share a cursor |
| NssEnum.CursorRuns | truenas_nss/src/service.rs:848-909 | The calls on a cursor are runs of one set, any gets and one end by the same iterator, never interleaved, with exactly one end for each set that succeeded |
| NssEnum.RefusedExactly | truenas_nss/src/service.rs:757-792 | A new enumeration is refused, with nothing changed, exactly when the thread itself has an iterator open on the cursor it would use; otherwise the claim goes on to the lock or to `set*ent` |
| NssEnum.NoSelfWait | truenas_nss/src/service.rs:757-792 | No thread waits for a lock it holds |
| NssEnum.NoDeadlock | truenas_nss/src/service.rs:757-806 | With at most one process-scoped service the holder of a lock that a thread waits for can go on, and so can every thread that waits for none |
| NssEnum.TwoCanDeadlock | truenas_nss/src/service.rs:757-792 | Any two process-scoped services have a run that stops two threads for good |
| NssLookup.GrowAndCall | truenas_nss/src/service.rs:443-460 | The answer is the module's at the first doubled length where it asks for no more, or at the ceiling |
| NssLookup.Enumerate | truenas_nss/src/service.rs:523-546 | An enumeration yields the entries up to the first answer that is none, then that answer's fault once if it is a fault, then nothing, and the cursor is ended exactly once wherever it is dropped |
| NssLookup.EntIter.constructor | truenas_nss/src/service.rs:824-846 | An enumeration starts open, with nothing asked |
| NssLookup.EntIter.Next | truenas_nss/src/service.rs:864-901 | It stays open exactly while the answers are entries, and asks nothing once closed |
| NssLookup.EntIter.Close | truenas_nss/src/service.rs:850-862 | However often it is closed, the cursor is ended once |
| NssLookup.DedupGids | truenas_nss/src/service.rs:675-689 | The same groups, once each, in order of first appearance |
| NssLookup.FanOutGroups | truenas_nss/src/service.rs:691-712 | The union of every module that can answer with the seed first, or the first fault that is more than being unavailable |
| JsonFrame.FindFrame | truenas_jsonrpc/src/frame.rs:66-107 | The loop finds the end that the scan defines, and its depth never underflows |
| JsonFrame.RefusedExactly | truenas_jsonrpc/src/frame.rs:66-107 | Bytes are refused exactly when the first that is not whitespace opens neither an object nor an array |
| JsonFrame.TextThrough | truenas_jsonrpc/src/frame.rs:81-105 | Inside a message any JSON text, with any layout and escapes, leaves the scan at the depth it found |
| JsonFrame.MessageFrames | truenas_jsonrpc/src/frame.rs:39-107 | An object or array with whitespace before it is found whole, whatever follows |
| JsonFrame.Survives | truenas_jsonrpc/src/frame.rs:10-37 | A verdict of complete or invalid survives any bytes that arrive later |
| JsonFrame.PartIsIncomplete | truenas_jsonrpc/src/frame.rs:20-26 | Every proper part of a message from its start is incomplete |
| JsonFrame.CutsOfStream | truenas_jsonrpc/src/frame.rs:14-21 | At every moment of a stream's arrival cutting gives exactly the messages that have arrived whole and keeps the start of the next |
| JsonFrame.CutsRecover | truenas_jsonrpc/src/frame.rs:14-21 | A whole stream is cut into exactly its messages |
| JsonBuild.WriteInto | truenas_jsonrpc/src/response.rs:106-131 | What is appended is one JSON object, the Response of section 5 of the JSON-RPC 2.0 specification |
| JsonBuild.WriteError | truenas_jsonrpc/src/response.rs:115-126 | What is appended is the error object |
| JsonBuild.DecimalBack | truenas_jsonrpc/src/response.rs:117-117 | The digits written for a number read back as it, without a zero in front |
| JsonBuild.IntegerBack | truenas_jsonrpc/src/response.rs:117-117 | The same with a sign, so no two integers are written alike |
| JsonBuild.WrittenOut | truenas_jsonrpc/src/response.rs:117-117 | The code -32601 and the id 12, digit by digit |
| JsonBuild.ResponseLayout | truenas_jsonrpc/src/response.rs:106-131 | The text of every response, letter by letter |
| JsonBuild.ErrorLayout | truenas_jsonrpc/src/response.rs:115-126 | The text of every error object, letter by letter |
| JsonBuild.ResponseFrames | truenas_jsonrpc/src/response.rs:106-131 | A built response is found whole by the framer, whatever follows |
| JsonBuild.BatchFrame | truenas_jsonrpc/src/response.rs:150-164 | The answers to a batch are one array of the responses, and nothing if there are none |
| JsonBuild.BatchOf | truenas_jsonrpc/src/client.rs:172-188 | Objects are joined with commas in brackets, and nothing is made of none |
| JsonBuild.BatchFrames | truenas_jsonrpc/src/client.rs:172-188 | A batch of JSON texts is one JSON text, found whole by the framer |
| JsonBuild.BatchOfResponsesFrames | truenas_jsonrpc/src/response.rs:150-164 | The answers to a batch are one message, found whole by the framer |
| JsonBuild.Open | truenas_jsonrpc/src/client.rs:140-165 | Parameters are refused exactly when they do not encode or are neither an object nor an array |
| JsonBuild.RequestWithId | truenas_jsonrpc/src/client.rs:98-112 | A request that is built is the Request object with its id |
| JsonBuild.Notification | truenas_jsonrpc/src/client.rs:117-129 | A notification that is built is the Request object without an id |
| JsonBuild.RequestLayout | truenas_jsonrpc/src/client.rs:97-165 | The text of every request and notification, letter by letter |
| JsonBuild.RequestEnds | truenas_jsonrpc/src/client.rs:97-113 | A request ends with the digits of its id, and two that ask the same are alike only under one id |
| JsonBuild.RequestFrames | truenas_jsonrpc/src/client.rs:98-129 | A built request or notification is found whole by the framer |
| JsonBuild.Caller.constructor | truenas_jsonrpc/src/client.rs:67-69 | The first id is 1 |
| JsonBuild.Caller.Request | truenas_jsonrpc/src/client.rs:80-95 | A request that is built uses up its id and one that is refused does not; the last number is not passed |
| JsonBuild.IdsDistinct | truenas_jsonrpc/src/client.rs:80-95 | Over any run of calls two requests have the same id if and only if the counter had reached its last number by the first of them |
| JsonBuild.SentIdsDistinct | truenas_jsonrpc/src/client.rs:80-95 | The same of the digits that are sent, which stand for the number of the request |
| CivilDate.CivilIs | truenas_chrony/examples/status.rs:64-73 | For every day from the epoch the date is one of the Gregorian calendar's and is that many days from the epoch |
| CivilDate.CivilBack | truenas_chrony/examples/status.rs:64-73 | Every date from the epoch on comes back from its day count |
| CivilDate.NextCivil | truenas_chrony/examples/status.rs:64-73 | The day after is the calendar's next date, from 1970-01-01 on |
| CivilDate.Clock | truenas_chrony/examples/status.rs:74-80 | The seconds of a day as a valid time that adds up to them |
| SipHash.InitialWords | truenas_siphash/src/lib.rs:39-46 | The initial words spell "somepseudorandomlygeneratedbytes" |
| SipHash.KeyWords | truenas_siphash/src/lib.rs:62-79 | Each half of the key is mixed into two of them |
| SipHash.LeIs | truenas_siphash/src/lib.rs:98-107 | A word is read with its lowest byte first |
| SipHash.WordExamples | truenas_siphash/src/lib.rs:98-107 | The words of the empty message and of the byte ab are those of section 2 |
| SipHash.XorIs | truenas_siphash/src/lib.rs:127-144 | An exclusive or, bit by bit |
| SipHash.RoundOfV0 | truenas_siphash/src/lib.rs:127-144 | Where a round takes v0 alone, how far it is turned and what it is mixed with |
| SipHash.RoundOfV1 | truenas_siphash/src/lib.rs:127-144 | The same for v1 |
| SipHash.RoundOfV2 | truenas_siphash/src/lib.rs:127-144 | The same for v2 |
| SipHash.RoundOfV3 | truenas_siphash/src/lib.rs:127-144 | The same for v3 |
| SipHash.AtRest | truenas_siphash/src/lib.rs:109-125 | A word of the message goes into v3 before the rounds and v0 after them, and ff into v2 at the end |
| SipHash.AllFourWords | truenas_siphash/src/lib.rs:81-90 | The hash takes in all four words of the final state |
| SipHash.SipRound | truenas_siphash/src/lib.rs:127-144 | The round on the array is the round of section 2 of the paper on the four words |
| SipHash.Compress | truenas_siphash/src/lib.rs:109-117 | A word goes in before and after the rounds |
| SipHash.Finalize | truenas_siphash/src/lib.rs:119-125 | The constant goes in before the last rounds |
| SipHash.Hash | truenas_siphash/src/lib.rs:81-90 | The hash is that of the words of the message, in order, for every length |
| SipHash.RoundBack | truenas_siphash/src/lib.rs:127-144 | A round is a bijection of the state with an explicit inverse |
| SipHash.MessageIsABijection | truenas_siphash/src/lib.rs:81-125 | For every message the map from starting state to final four words is a bijection with an explicit inverse |
| SipHash.WordsOnce | truenas_siphash/src/lib.rs:81-107 | No two messages, of whatever lengths, have the same words |
| SipHash.KeyOnce | truenas_siphash/src/lib.rs:62-79 | No two keys start from the same state |
| OidDecode.Decode | truenas_gssapi/src/oid.rs:151-183 | The loop gives the arcs, and nothing exactly for empty input, an unfinished last sub-identifier or one above 64 bits |
| OidDecode.DecodesBack | truenas_gssapi/src/oid.rs:151-183 | Every legal arc list comes back from its minimal octets |
| OidDecode.Kerberos | truenas_gssapi/src/oid.rs:22-24 | The octets of the Kerberos mechanism are 1.2.840.113554.1.2.2 |
| OidDecode.MinimalBack | truenas_gssapi/src/oid.rs:151-183 | Octets that end are the minimal ones of their sub-identifiers if and only if none of those begins with a zero |

## Left out

- The recursion-limit error carries no depth in the model, and errors of a writer carry no text.
- Lengths and cursors are unbounded numbers, with inputs of at most `isize::MAX` bytes; the saturating arithmetic on `usize` behind the reported number of missing bytes is not modelled.
- Floating-point values are their bit patterns, and strings are bytes that are UTF-8.
- The hash value of the SipHash paper's appendix: the words, the round and the places where words go in are stated instead.
- The first field of a union's default arm is an `i32` or an `XdrEnum`; other types that encode to one unit are covered by `Discriminant` only.
- Schemas are trees of serde calls: the trait plumbing of serde and the token streams of the derive macros are not modelled.
- The PAM trampoline, its memory, scrubbing and signal masks: a conversation is one step that yields answers, a failure or a panic.
- A panic of the worker outside the module's operation: nothing in the worker's closure can raise one.
- The `timeout` value itself: a limited wait may time out at any moment.
- A caller that uses the transaction directly through `transaction_mut` in the middle of the login sequence.
- Directory creation and canonical paths: a path is its canonical form. The lock that serialises opening databases is not modelled.
- Thread teardown, when a thread's list of live transactions or enumerations may already be gone.
- LMDB itself: pages, maps, syncs and error codes. A database is its entries in order.
- Cursors and values handed out inside `Env::read` and `Env::write`: borrows that the Rust compiler checks.
- The NSS modules' own code, symbol resolution and the copying of entries out of the scratch buffer.
- The first-hit lookup across NSS modules.
- `serde_json` and the envelope validators of requests and replies: values are JSON texts with their layout.
- The text that `utc` prints, and the fraction of a second.
- Chrony sockets, Kerberos, GSS-API and kernel TLS bindings: the behaviour is in libraries outside the repository.
- Error tables and their text.
