# ecCodes: bit packing, message layout, id tables - a verified model

ecCodes reads and writes meteorological messages. This project models, in Dafny 4.11, the parts of it
whose correctness is decided by loops over bits, offsets and pointers, and proves what they promise.
`dafny verify dfyconfig.toml` checks everything.

| file | what it models |
|---|---|
| `Bits.dfy` | shifts, masks, octets, and the number held in a run of bits (`Field`, `Fields`) |
| `Packing.dfy` | the encoders of simple packing: the streaming packer and the byte-width ones |
| `Readers.dfy` | the decoders, with their 64-bit accumulators, and the slow bit-by-bit reference |
| `Writers.dfy` | single bits, arrays of integers and reals, reading back, quantisation over the reals |
| `SignedInts.dfy`, `UnsignedInts.dfy` | sign-and-magnitude and unsigned integers |
| `Layout.dfy` | the section/accessor tree as a value, and what adjusting its sizes does to it |
| `Adjusted.dfy` | what adjusting leaves behind at every depth, said without walking |
| `LengthFields.dfy` | where the length fields lie in the message, and what their octets say |
| `Sections.dfy` | the tree as linked objects: adjusting sizes, moving offsets, finding paddings |
| `Blocks.dfy` | building a block: the factory, the doubly linked list, the chain of same-named accessors |
| `Building.dfy` | a block built that way is a tree of the kind the rest works on |
| `Counting.dfy` | when asking a section for its bytes leaves it as long as what is in it |
| `Creating.dfy` | one accessor made and pushed: what becomes of the block, its tree and its length fields |
| `Actions.dfy`, `Messages.dfy` | whole messages made from lists of actions, templates within templates |
| `Buffers.dfy` | the growable message buffer and the replacement of a stretch of it |
| `Paddings.dfy`, `Replacing.dfy`, `Settling.dfy` | what resizing an accessor, replacing its bytes and restoring preferred sizes mean for a layout and its bytes |
| `PaddingOrder.dfy`, `Resizing.dfy`, `PaddingLoop.dfy` | the same on linked objects and the buffer |
| `IdTables.dfy` | the integer ids the Fortran interface hands out |
| `ScaleFactor.dfy` | scaled value and decimal scale factor of a number |
| `Results.dfy` | optional values and error codes |

How the source's terms are represented:

- Bytes are integers 0..255. `x << k`, `x >> k` and `x & mask` are `Shl`, `Shr` and `Low`;
  `Shifts.ShiftIsArithmetic` says they are multiplication, floor division and remainder by 2^k. Where the
  source relies on the width of an integer type, the wrap-around is written out (`Low(x, 32)`,
  `Low(x, 64)`, `Wrap`). `long` has 64 bits.
- A buffer that is written is an `array`; one that is only read (`const unsigned char*`, `const double*`)
  is a `seq`. A position passed by pointer is a parameter and a result.
- `BitCount(n, w)` is n * w (`Bits.BitCountIsProduct`).
- `double` is `real`: the results on quantisation and on scale factors are about exact arithmetic.
- Sections, accessors, handles, buffers and table nodes are classes. Loops over linked lists walk the same
  pointers as the source. `Sections.Tree` is a ghost description of which objects hang below a section;
  `Value` reads off the layout value of those objects, and the methods are proved against functions on
  values (`Adjust`, `MovedAll`, `Resized`), about which the laws are lemmas.
- The length of a section is stored in the octets of one of its own accessors (`aclength`). `stored` is
  the number these octets hold: reading and packing a length field work on the buffer, and `Readable`
  and `Rewritten` say that octets and numbers agree.

## Main results

**Packing.** The streaming packer, the byte-at-a-time packer and the unrolled one write the same octets:
the low w bits of the values back to back, zero-padded, no other byte touched (`EncodeCommon`,
`EncodeByte`, `EncodeUnrolled` share one postcondition). Any reader started at the first of these bits
gets every value modulo 2^w (`PackedReadBack`), and packing what was unpacked writes the same octets again
(`RepackSameOctets`, `ReencodedSame`), for every reference, step and decimal factor; what comes back is within half a
step exactly where rounding is to the nearest step (`PackingErrorIff`, `EncodedErrorIff`).

**Reading.** The fast readers equal the bit-by-bit reference on every buffer exactly when each value,
together with the bits read past it, fits the 64-bit accumulator (`ReadsExactIff`), which holds from every
bit position exactly for widths up to 57 (`FitsEverywhere`). The whole-byte branch of `grib_decode_array`
equals the reference exactly when it starts at bit 0 and the width is positive (`AlignedAgreesIff`): a
width of zero consumes one octet per value, and a start position is ignored.

**Layout.** `grib_section_adjust_sizes` on objects and buffer refines a function on values (`AdjustSizes`).
It succeeds exactly when every stored offset agrees with the recomputed lengths and every field accepts its
length (`AdjustSucceedsIff`). After a successful update the message is laid out without gap at every depth
and is as long as its leaves together (`AdjustTiles`); the octets of length fields, and no others, are
rewritten, and they hold the lengths of their sections at every depth exactly when these are in range
(`AdjustTellsIff`). What an update, a reading and a failed walk leave in every field is said section by section
(`AdjustUpdates`, `AdjustReads`, `WalkStopsAt`). Reading a message whose lengths were forced changes nothing exactly
when no padding is left where there is no length field (`ReadAfterForcedIff`). A second reading changes nothing exactly when no section carries a disturbing stale
padding (`ReadingTwiceIff`). Replacing the bytes of one leaf, moving what follows and adjusting changes no
other leaf length, and every other leaf that is not a length field keeps its bytes (`ReplaceKeepsBytes`, and
`BufferReplace` on the linked objects and the buffer). The padding loop ends with every accessor at its
preferred size, in the one assignment of lengths of that kind; accessors that are neither paddings nor
length fields keep their bytes, and a tiled message ends up tiled exactly when the new lengths are in range
(`UpdatePaddings`; after a forced rewriting of all lengths, `UpdateSectionsLengths`).

**Building.** Making and pushing one accessor keeps a block the tree on which all this works exactly when the
accessor before it counts its bytes right (`Create`), and `CountedInStepIff` says exactly when that is. A list
of accessors, length fields and templates, nested at any depth, becomes a message tree with these leaves, names,
widths and paddings; its length fields tell what its sections say, and it can be resized and padded exactly when
the data does not go on behind it (`CreateMessage`). This is for messages in which every section fits its length
field while it is made, or every length field read says no more than its section contains (`Regular`, a condition
on the list and the data; `ExampleRegular` is a list that meets it). A section of some length that is parsed
again and has an underscore in second place of its name counts nothing (`UnderscoreCountsNothing`).

**Id tables.** Every run is a run of a finite map, and the list is exactly as long as the largest number of
ids ever in use at once (`RunRefines`); hence handle ids and file ids stay apart exactly in runs with fewer
than 50000 handles live at once (`HandlesBelowFilesIff`). Looking up, or clearing a file by, the negated id
of a freed slot is outside the map's behaviour, and only that (`GetRefinesIff`, `ToggleRefinesIff`).

**Where the code and its comments differ.** The comment in src/codes_util.cc says the returned value cannot
exceed its limit. `Compute` states exactly when value and factor keep to their limits, and when the
magnitude of the value does (`Algorithm1MagnitudeIff`); `LimitNotEnforced` (300 with limit 255) and
`NegativeBeyondLimit` (-9.99 becomes -999 with limit 255) are inputs where a reader of the comment would be
surprised. A result of the search is within 2^-23 of the input unless a limit stopped it (`FirstStopAccuracy`).
The half-step error bound of packing fails exactly for values more than half a step below the
reference, because the conversion truncates (`PackingErrorIff`, `BelowReference`). A section length of
2147483647 is taken for the missing value and packed unchecked (`MissingLengthCut`).

## Model

| member | source | states |
|---|---|---|
| Packing.EncodeCommon | src/encode_double_array.cc:17-60 | for widths 0 to 32 the octets from *gz on become the low-order bits of the quantised values, concatenated and zero-padded; *gz grows by their number; every other byte of the buffer is untouched |
| Packing.AppendValue | src/encode_double_array.cc:36-55 | one value joins the stream: octets written plus pending bits are the old stream followed by exactly the low numBits bits of the value, with 1 <= cbits <= 8 and the pending bits below 2^(8-cbits) |
| Packing.WriteLastOctet | src/encode_double_array.cc:56-59 | the open octet is flushed with zero bits and the octets are then exactly the packed ones |
| Packing.EncodeByte | src/encode_double_array.cc:62-175 | for every width, whole-byte or not, the same octets and the same end position as the streaming packer; widths outside 0 to 32 change nothing |
| Packing.EncodeUnrolled | src/encode_double_array.cc:177-366 | blocks of eight plus a residue, on machines of either byte order, produce the same octets and end position again |
| Packing.EncodeBlock | src/encode_double_array.cc:204-228 | a block that is scaled first and stored afterwards extends the stream by its values in order, with the typed cursor and z in step |
| Packing.PackedFields | src/encode_double_array.cc:28-59 | read as w-bit fields, the packed octets are the values modulo 2^w in order, and the padding bits are zero |
| Packing.QuantiseNearest | src/encode_double_array.cc:30-35 | the integer stored for a value is the number of the nearest step above the reference, the upper one of two equally near, for values from half a step below the reference up |
| Packing.QuantiseBelow | src/encode_double_array.cc:30-35 | further below it is rounded towards zero instead |
| Packing.PackedUnique | src/encode_double_array.cc:28-59 | octets that hold the concatenation and zero padding are the packed octets: there is only one such packing |
| Packing.StreamStep | src/encode_double_array.cc:38-54 | cutting k more bits off a value at any place of an octet continues the concatenation |
| Packing.WholeOctet | src/encode_double_array.cc:91-158 | storing value >> 8j cut to a char, with nothing pending, is a step of the same stream |
| Readers.DecodeLongArray | src/grib_bits_any_endian_omp.cc:23-64 | reads n consecutive w-bit fields from any bit position through a signed 64-bit accumulator, advances *bitp by n*w, leaves the rest of the output alone; equals the bit-by-bit fields whenever they fit |
| Readers.DecodeDoubleArray | src/grib_bits_any_endian_omp.cc:75-135 | the same through an unsigned accumulator, each field scaled on the way out by step, reference and decimal factor |
| Readers.DecodeSlow | src/grib_bits_any_endian_omp.cc:83-94 | the bit-by-bit reference reads exactly the fields for every width up to 64 and every position |
| Readers.DecodeArray | src/grib_bits_any_endian_simple.h:22-105 | widths not divisible by 8: as above; divisible by 8: octets from the start of the buffer whatever the position, which is left unchanged, and one octet per value for width 0 |
| Readers.ScaleLaw | src/grib_bits_any_endian_omp.cc:130-132 | for every decimal factor: the value returned, multiplied by the reciprocal of the factor, is the reference plus the field times the step |
| Readers.ReadOctets | src/grib_bits_any_endian_omp.cc:38-48 | the inner loop accumulates, modulo 2^64, exactly the octets the value touches and reports the bits read too many |
| Readers.ReadValue | src/grib_bits_any_endian_omp.cc:36-62 | one round yields the windowed value and leaves pi and usefulBitsInByte pointing at the next bit, re-reading a shared octet |
| Readers.WrapRange | src/grib_bits_any_endian_omp.cc:26-45 | what 64 bits make of a number is in the range of a long, or of an unsigned long |
| Readers.ReadExact | src/grib_bits_any_endian_omp.cc:49-56 | shifting out the excess and masking recovers the field when field and excess fit 64 bits, signed or not |
| Readers.ReadExactIff | src/grib_bits_any_endian_omp.cc:26-56 | a value is read right from every buffer exactly when it fits; otherwise some buffer loses its first bit |
| Readers.ReadsExactIff | src/grib_bits_any_endian_omp.cc:83-133 | a whole array agrees with the bit-by-bit reading on every buffer exactly when every one of its values fits |
| Readers.FitsEverywhere | src/grib_bits_any_endian_omp.cc:34-48 | widths up to 57 fit from every bit position, wider ones do not |
| Readers.ReadsResume | src/grib_bits_any_endian_omp.cc:28-62 | decoding n + m values is decoding n and then m from the position left behind, even inside an octet |
| Readers.AlignedAgreesIff | src/grib_bits_any_endian_simple.h:44-63 | the whole-byte branch equals the general reading on every buffer exactly for start bit 0 and positive width |
| Readers.AssembleOctets | src/grib_bits_any_endian_simple.h:50-59 | shifting octets together gives the big-endian number they hold, for up to eight octets |
| Writers.WithBitAt | src/grib_bits.cc:120-154 | setting or clearing a bit changes that bit and no other; reading bits back sees it |
| Writers.SetBitsOn | src/grib_bits.cc:127-133 | nbits consecutive bits become one, no other bit of the buffer changes |
| Writers.EncodeUnsignedLongb | src/grib_bits_any_endian.cc:386-407 | the field at *bitp becomes the low nb bits of the value and no other bit changes |
| Writers.EncodeLongArray | src/grib_bits_any_endian_omp.cc:142-167 | unaligned widths: the fields at *off become the values modulo 2^w, all other bits stay; whole-byte widths: the packed octets at the start of the buffer whatever *off; *off advances by n*w either way |
| Writers.EncodeDoubleArray | src/grib_bits_any_endian_omp.cc:169-197 | the same for reals, which are scaled and quantised first; what that means is said by the next three |
| Writers.EncodedErrorIff | src/grib_bits_any_endian_omp.cc:169-197 | decoding where reals were encoded, with the reciprocal step and decimal factor, gives each in-range value back within half a step, before decimal scaling is undone, exactly when it is not more than half a step below the reference |
| Writers.ReencodedSame | src/grib_bits_any_endian_omp.cc:174-180 | encoding what was decoded leaves every octet as it was, at any bit position, for every decimal factor, reference and divisor |
| Writers.ReencodedAligned | src/grib_bits_any_endian_omp.cc:181-196 | so it does in whole octets from the start |
| Writers.PackedReadBack | src/encode_double_array.cc:17-60 | codec round trip: reading at bit 8*start what was packed at octet start returns every value modulo 2^w, for widths up to 57 |
| Writers.WrittenReadBack | src/grib_bits_any_endian_omp.cc:142-167 | round trip for values written at any bit position |
| Writers.PackingErrorIff | src/encode_double_array.cc:30-35 | over the reals and for every decimal factor, unpacking a packed in-range value and undoing the decimal scaling is within half a step of the original exactly when the value is not more than half a step below the reference |
| Writers.BelowReference | src/encode_double_array.cc:30-35 | -1 with reference 0 and step 1 is in range, is packed as 0, and comes back a whole step away |
| Writers.RepackSameOctets | src/encode_double_array.cc:30-57 | packing the unpacked field, multiplied by its decimal factor, writes the same octets again, whatever was packed |
| SignedInts.EncodeSignedLong | src/grib_bits.cc:97-118 | the l octets at o become magnitude and sign, all other bytes stay |
| SignedInts.DecodeSignedLong | src/grib_bits.cc:73-95 | returns the sign-and-magnitude number in the l octets at o |
| SignedInts.EncodeDecodeIff | src/grib_bits.cc:73-118 | decoding an encoded value returns it exactly when its magnitude is below 2^(8l-1) |
| SignedInts.DecodeEncodeIff | src/grib_bits.cc:73-118 | encoding a decoded value restores the octets exactly when they are not the negative zero |
| SignedInts.NegativeZeroOctets | src/grib_bits.cc:114-115 | the one exception is the octet 128 followed by zeros |
| UnsignedInts.DecodeUnsignedLong | src/grib_bits_any_endian.cc:195-261 | at any bit position and of any width: up to 64 bits the windowed value, which is the field whenever it fits the accumulator; beyond, piece by piece, the last 64 bits, or a failed assertion when the low 32 bits of an earlier piece are not zero; *bitp advances by nbits |
| UnsignedInts.WideReadIff | src/grib_bits_any_endian.cc:207-224 | a number of more than 64 bits that ends with an octet is returned exactly when it is below 2^64 |
| UnsignedInts.HighHalfUnseen | src/grib_bits_any_endian.cc:212-221 | above that the assertions do not always notice, because the piece goes through an int: 2^96 is returned as 0 |
| UnsignedInts.EncodeUnsignedLong | src/grib_bits_any_endian.cc:263-320 | at any bit position and of any width, bit by bit: the nbits at *bitp become the value, with zeros in front of its 64 bits; bits of the value above nbits are laid over what comes before in the first octet; the rest of the last octet written is cleared; every other bit stays |
| UnsignedInts.WrittenIsRead | src/grib_bits_any_endian.cc:195-320 | round trip: a value below 2^nbits is read back from where it was written, at any bit position it fits the accumulator from, and for wider numbers when they end with an octet |
| UnsignedInts.FittingKeeps | src/grib_bits_any_endian.cc:295-304 | a value below 2^nbits changes no bit before it |
| UnsignedInts.NextOctetCleared | src/grib_bits_any_endian.cc:294-315 | one bit written inside an octet, neither first nor last, clears the octet after it |
| UnsignedInts.ExcessLaidOver | src/grib_bits_any_endian.cc:295-304 | a 2 written in one bit sets the bit before it |
| UnsignedInts.WrittenOutside | src/grib_bits_any_endian.cc:290-318 | no octet outside those the number touches changes, except that one behind a number that starts inside an octet and ends inside the same one is cleared; the rest of the last octet is zero |
| UnsignedInts.WholeOctetsWritten | src/grib_bits_any_endian.cc:307-311 | from octet boundary to octet boundary the octets are those of the value, most significant first, all others stay |
| Layout.AdjustSucceedsIff | src/grib_accessor_class.cc:271-340 | success exactly when all stored offsets at every depth equal the recomputed ones and every field accepts its length; otherwise, if the fields do, the decoding error; the section's length is then the recomputed one |
| Layout.AdjustTiles | src/grib_accessor_class.cc:279-338 | after a successful update accessors follow one another from the owner's offset at every depth, owner and section agree on the sum, which is that of the leaves, which kept their lengths; the length fields agree, too, exactly when every length is in range |
| Layout.AdjustTells | src/grib_accessor_class.cc:302-316 | after a successful update the stored numbers are the lengths at every depth exactly when every length is in the range of its field |
| Adjusted.AdjustUpdates | src/grib_accessor_class.cc:302-338 | after a successful update, at every depth: a length field that differed from the sum of the leaves, or any if forced, holds that sum modulo 2^(8n) and its section has no padding; any other section keeps field and padding; section and owner are as long as the leaves; offsets and leaf lengths stay |
| Adjusted.UpdatedUnique | src/grib_accessor_class.cc:302-338 | that leaves only one possible state |
| Adjusted.AdjustReads | src/grib_accessor_class.cc:318-338 | after a successful reading, at every depth: a partial message is believed and keeps its paddings; in a whole one a field that says more than padding and contents of before gives the length and the difference becomes the padding, one that says less is overruled and the padding goes; fields and offsets stay |
| Adjusted.WalkStopsAt | src/grib_accessor_class.cc:279-300 | a walk that fails has adjusted the accessors before one of them and left those behind it alone; that one could not be adjusted below and keeps offset and length, or it was not where the ones before it end and is put there |
| Adjusted.FailureKeeps | src/grib_accessor_class.cc:283-314 | a section that could not be adjusted keeps its field, padding and length |
| Adjusted.OutOfRangeRefused | src/accessor/grib_accessor_class_unsigned.cc:65-134 | a length that has to be rewritten and is out of the range of a field of up to four octets makes the update fail, unless it is 2147483647 |
| Adjusted.AdjustErrors | src/grib_accessor_class.cc:271-340 | adjusting returns 0, -13 or, when lengths are rewritten, -14 |
| Adjusted.ReadAfterForcedIff | src/grib_accessor_class.cc:302-338 | reading what a forced update left changes nothing exactly when no section without a length field has a padding and, for a partial message, every length is in the range of its field |
| Layout.MissingLengthCut | src/accessor/grib_accessor_class_unsigned.cc:113-134 | a length of 2147483647 is packed into three octets without an error, and another number is stored |
| LengthFields.AdjustTellsIff | src/grib_accessor_class.cc:302-316 | after a successful update whose fields are rewritten the octets of every length field hold the length of their section, exactly when every length is in range |
| LengthFields.TellsIffTold | src/accessor/grib_accessor_class_unsigned.cc:160-200 | while octets and stored numbers agree, the octets tell the lengths exactly when the numbers do, and the numbers fit their octets |
| LengthFields.AdjustKeepsPlaces | src/grib_accessor_class.cc:279-300 | adjusting neither adds nor removes a length field, and moves none when the offsets agree |
| Layout.TiledIsStable | src/grib_accessor_class.cc:271-340 | a tiled layout passes a further update unchanged |
| Layout.ReadingPads | src/grib_accessor_class.cc:302-338 | reading with zero paddings: a section with a length field becomes as long as the larger of field and contents, its padding is the difference; others are as long as their contents |
| Layout.ReadingTwiceIff | src/grib_accessor_class.cc:275-338 | a second reading changes nothing exactly when every section's stale padding is zero, already counted in the field, or half of what is missing (or it has no field, or the message is partial) |
| Layout.StalePadding | src/grib_accessor_class.cc:302-338 | read with length 10, edited to 20 and read twice: the padding goes from 6 to 10 and back to 6 |
| Layout.UpdateIgnoresPartial | src/grib_accessor_class.cc:309-329 | when lengths are rewritten, partial messages and forced updates get the same lengths |
| Sections.AdjustSizes | src/grib_accessor_class.cc:271-340 | on linked objects, of any depth and disjoint: error code, all offsets, lengths, paddings and stored lengths afterwards are those of the value function, also when it stops half way; the octets of the length fields hold the new numbers and no other octet of the message changes; the owner's length changes on success only; links are untouched |
| Sections.Accessor.PackLong | src/accessor/grib_accessor_class_unsigned.cc:65-134 | the octets at the accessor's offset become the value's, nothing else changes; an error exactly when up to four octets are too few and the value is not the missing one |
| Sections.Accessor.UnpackLong | src/accessor/grib_accessor_class_unsigned.cc:160-200 | returns the number in the octets at the accessor's offset |
| Sections.AdjustBlock | src/grib_accessor_class.cc:279-300 | the loop over next pointers adjusts the accessors in order and stops at the first failure, leaving the later ones alone |
| Sections.FinishSection | src/grib_accessor_class.cc:302-338 | length field and its octets, padding, section length and owner length after the walk, in all three modes |
| Sections.FindPaddings | src/grib_accessor_class.cc:380-397 | returns the first accessor, sections below before their owners, whose length is not the preferred one |
| Sections.NoMismatchIff | src/grib_accessor_class.cc:380-397 | it returns NULL exactly when every accessor has its preferred size |
| Sections.PostOrderComplete | src/grib_accessor_class.cc:384-396 | the order in which accessors are inspected misses none at any depth |
| Sections.UpdateOffsets | src/grib_buffer.cc:118-128 | every accessor from the given one on, and all below them, moves by len; nothing else changes |
| PaddingOrder.LeavesOfValue | src/grib_accessor_class.cc:380-397 | leaf lengths of the tree's value are the lengths of its leaf objects in document order |
| PaddingOrder.FoundIsFirstLeaf | src/grib_accessor_class.cc:380-397 | when sections prefer the length they have, the accessor found is the first leaf in document order that has not its preferred size |
| PaddingOrder.LeavesOfFields | src/accessor/grib_accessor_class_section_length.cc:16-24 | the length fields of a message are leaves of it, all different ones, none of them a padding, and lie where the layout says |
| Paddings.ResizeRetiles | src/grib_buffer.cc:130-242 | in a tiled message one leaf is resized, what follows is moved and sizes are adjusted: this succeeds exactly when the fields accept the new lengths, and accessors follow one another again with only that leaf's length changed |
| Paddings.AdjustTiledIff | src/grib_accessor_class.cc:271-340 | whatever an update of any kind leaves behind, also a failed one, is tiled exactly when every length is in the range of its field, provided the offsets agreed |
| Replacing.ReplaceKeepsBytes | src/grib_buffer.cc:198-242 | every other leaf that is not a length field still denotes the bytes it denoted, the resized one the new bytes; message length, offsets and lengths stay in step; length fields can be read, and tell their sections' lengths after success exactly when these are in range |
| Replacing.SpliceKeepsBytes | src/grib_buffer.cc:214-232 | before sizes are adjusted every other leaf, length fields included, denotes what it denoted |
| Replacing.AdjustKeepsBytes | src/grib_accessor_class.cc:279-316 | adjusting with any update then rewrites the octets of length fields only |
| Paddings.AdjustKeepsOffsets | src/grib_accessor_class.cc:279-300 | an update of any kind leaves agreeing offsets alone even when packing a length fails half way, and so does a reading that succeeds |
| Paddings.MatchedOffsets | src/grib_accessor_class.cc:279-300 | when stored offsets agree with the lengths, a leaf starts at the sum of the leaf lengths before it |
| Paddings.AdjustKeepsLeaves | src/grib_accessor_class.cc:279-300 | adjusting never changes the length of a leaf, even when it fails half way |
| PaddingLoop.UpdatePaddings | src/grib_accessor_class.cc:399-410 | on linked objects: the loop ends and never finds the same accessor twice in a row; afterwards every accessor at every depth has its preferred size, the layout is one left-to-right sweep over the leaves, accessors that are neither paddings nor length fields denote the bytes they denoted, paddings theirs or zeros; a tiled message is tiled again exactly when every length is in range, and then its length fields tell them |
| PaddingLoop.LoopingFacts | src/grib_accessor_class.cc:405-408 | the accessor found differs from the one resized before, so the abort is never reached |
| PaddingLoop.Replace | src/grib_buffer.cc:198-242 | on linked objects and the buffer: the bytes are replaced, everything behind moves, the leaf gets its length, sizes are adjusted and length fields rewritten; nothing but the bytes when the size stays; the error is that of adjusting; after success the length fields tell the lengths exactly when these are in range |
| PaddingLoop.BufferReplace | src/grib_buffer.cc:198-242 | the public call with its choice to restore paddings: error, layout, which accessors are at their preferred size, and the bytes of every accessor that is neither padding nor length field |
| PaddingLoop.UpdateSectionsLengths | src/grib_buffer.cc:244-248 | on linked objects and the buffer: all lengths are rewritten, errors unnoticed, then paddings get their preferred sizes; the layout is the sweep from the forced adjustment, accessors that are neither paddings nor length fields keep their bytes, and the result is tiled, with length fields that tell it, exactly when every length is in range |
| PaddingLoop.Resize | src/accessor/grib_accessor_class_padding.cc:35-47 | the padding becomes zeros of the new size and has that length afterwards, which the source asserts; other leaves keep their bytes, length fields are rewritten |
| PaddingLoop.PreferredIsWish | src/accessor/grib_accessor_class_padto.cc:16-28 | with offsets in step, a padding's preferred size depends only on the lengths of the leaves before it |
| PaddingLoop.PreferredMeans | src/accessor/grib_accessor_class_padtomultiple.cc:16-29 | wherever an accessor is: it wants the length it has; a pad its amount, or nothing for a negative one; padto ends at its place or is empty behind it; padtoeven makes the distance even with one byte at most; padtomultiple makes it a multiple with at least one byte, and at most one multiple unless it starts before its mark |
| Resizing.UpdateOffsetsAfter | src/grib_buffer.cc:130-136 | climbing from the leaf to the root, exactly the accessors behind it in its own and all enclosing sections move |
| Resizing.ResizedWith | src/grib_buffer.cc:130-136 | moving exactly these and setting the leaf's length is resizing the leaf in the layout value |
| Resizing.WayClimbs | src/grib_buffer.cc:131-135 | the owners reached by the climb are the blocks on the way from the root to the leaf, and what is behind lies outside the way |
| Building.BlockMakesTree | src/grib_accessor_class.cc:151-254 | a contiguous doubly linked block whose accessors but the last have been counted is a well-linked tree that meets no object twice, with length fields as wide as they are long and stored offsets equal to the recomputed ones; once the last is counted its length is where the next accessor would go; for a root section it is a message tree |
| Building.ShapedDistinct | src/grib_accessor_class.cc:139-151 | because parents and owners lead up in one way only, a tree whose blocks hold different accessors meets no object twice |
| Building.BuiltIsSound | src/grib_handle.cc:38-46 | such a root block whose length fields tell what its sections say can be resized and padded exactly when the buffer is as long as its leaves together |
| Building.TiledIsSound | src/grib_accessor_class.cc:279-300 | so can a tiled message |
| Blocks.InitSection | src/accessor/grib_accessor_class_section.cc:16-22 | an accessor of the section class starts empty and owns a fresh empty section |
| Paddings.SettleUnique | src/grib_accessor_class.cc:399-410 | there is exactly one settled assignment of lengths that leaves non-padding accessors alone |
| Buffers.Buffer.Grow | src/grib_buffer.cc:79-99 | the buffer is at least as long as asked; when it grows, it is a multiple of 1024 with more than its old length and 1024 bytes, and at most twice its old length or 4096, to spare; old bytes kept, new ones zero |
| Buffers.Buffer.Replace | src/grib_buffer.cc:198-230 | the message becomes the part before, the new bytes, the part after |
| Blocks.Factory | src/grib_accessor_class.cc:125-205 | the new accessor starts where the last one ends, a section there being adjusted first; it has the name, padding and width asked for, the length its class starts with, an empty section of its own or the length field of the section around it; NULL exactly when it would pass the end of a buffer that cannot grow; otherwise the buffer covers it, and of the old message only octets of length fields below the last accessor change, to match |
| Blocks.NextPosition | src/accessor/grib_accessor_class_section.cc:29-47 | where an accessor ends: a section without length, or parsed again, is adjusted first, one with an underscore in second place then counts nothing |
| Blocks.CountedUnderscore | src/accessor/grib_accessor_class_section.cc:31-33 | a section that would be adjusted counts nothing and is left alone when the second character of its name is an underscore |
| Blocks.CountedOtherwise | src/accessor/grib_accessor_class_section.cc:35-41 | with any other name it is adjusted, lengths being rewritten if it is parsed again, and counts its new length, or the old one after an error |
| Blocks.Push | src/grib_accessor_class.cc:224-254 | the block stays a well-formed doubly linked list with the accessor appended; with the trie on and a name that is empty or starts with another character than an underscore, the table entry of its id becomes the accessor, its same pointer the old entry, other entries stay, and its attributes are linked to those of the one before; otherwise table and same pointer are left alone |
| Blocks.LinkSameAttributes | src/grib_accessor_class.cc:207-222 | every attribute leads to the first attribute of its name of the accessor before, or stays |
| Blocks.FirstOfName | src/grib_accessor_class.cc:217-219 | the attribute found is the first of that name; none is found exactly when there is none |
| Counting.CountedInStepIff | src/accessor/grib_accessor_class_section.cc:29-47 | after a section has been asked for its bytes it is as long as its leaves together, and these are where their lengths say, exactly when: it was before and is not adjusted, or it is parsed again and every field accepts its length, or it is read and every length found is the sum of the leaves |
| Counting.ModestReadsRight | src/grib_accessor_class.cc:302-331 | the latter holds where no length field says more than its section contains |
| Counting.UnderscoreCountsNothing | src/accessor/grib_accessor_class_section.cc:31-33 | a section of five bytes that is parsed again and called a_section is in step and counts nothing |
| Creating.Create | src/action_class_gen.cc:129-147 | factory then push: NULL exactly when there is no room; otherwise the block with the accessor behind it is again linked, contiguous, in step and known by its length field exactly when the accessor before counts its bytes right and all of them; its value is the old one with that accessor counted and the new one behind; octets change in length fields below that accessor only, to match; all length fields, a new one included, then tell what the sections say |
| Actions.ExampleRegular | src/action_class_template.cc:130-183 | a section with its length, a mark and a padding counted from the mark can be parsed again over any data, and read exactly from data whose length field is there and says no more than nine |
| Actions.CountedFollows | src/accessor/grib_accessor_class_section.cc:29-47 | in a regular list the last accessor counts right and all its bytes, the next one goes where the list says, and the leaves keep the lengths of the list |
| Messages.AddSimple | src/action_class_gen.cc:129-147 | one accessor or length field: it is made exactly when there is room and the mark that a padding counts from is in the table and no section; the section then shows one more action, with its length fields telling and the data behind it unread |
| Messages.CertainIff | src/accessor/grib_accessor_class_padtoeven.cc:16-34 | an accessor is certain to be made, if there is room, exactly when its padding does not count from a mark |
| Messages.AddTemplate | src/action_class_template.cc:130-183 | a template: an accessor with a section of its own, filled by the actions of its body before anything else is made, keeps the section around it what the actions say |
| Messages.CreateAll | src/action_class_template.cc:166-181 | a whole list into an empty section: everything is made if there is room and no mark is asked for, then accessors, names, widths, paddings and leaf lengths are those of the list at every depth, the block is linked, contiguous and in step, its length fields tell, and what comes before it in the buffer is untouched |
| Messages.CreateMessage | src/grib_handle.cc:167-216 | a whole message: sizes are adjusted without error, the root is a message tree with the leaves of the list and as long as they are together, marks come before their paddings, the buffer is as long as the data or the list, whichever is longer, and the message can be resized and padded exactly when that is the list |
| Blocks.ContiguousEnd | src/grib_accessor_class.cc:151-165 | in a contiguous block the next free offset is the start plus the sum of all lengths |
| Blocks.ChainOfName | src/grib_accessor_class.cc:236-253 | accessors[id] heads a same chain of exactly the accessors pushed under the name, newest first, none twice |
| IdTables.IdTable.Push | fortran/grib_fortran.cc:274-330 | the first freed slot is reused or one is appended; the id returned and all slots afterwards; existing nodes stay in the list |
| IdTables.IdTable.Get | fortran/grib_fortran.cc:576-585 | the content of the first slot with that id, NULL if there is none |
| IdTables.IdTable.GetFile | fortran/grib_fortran.cc:639-650 | for a file table: what the map holds under the id, NULL otherwise, for every id |
| IdTables.IdTable.ClearHandle | fortran/grib_fortran.cc:721-733 | the id of the slot is negated, negative ids are refused, the deletion's result is passed on |
| IdTables.IdTable.ClearFile | fortran/grib_fortran.cc:694-719 | the id of the slot is negated without a guard; invalid file, I/O problem or success |
| IdTables.PushRefines | fortran/grib_fortran.cc:274-330 | the smallest id not in use is bound to the handle, nothing else changes, slot k keeps id base + k |
| IdTables.PushGrowsIff | fortran/grib_fortran.cc:305-330 | a node is added exactly when every slot is in use |
| IdTables.GetRefinesIff | fortran/grib_fortran.cc:576-585 | a lookup is the map's, except exactly for the negated id of a freed slot that still holds a pointer |
| IdTables.ClearRefines | fortran/grib_fortran.cc:721-733 | clearing removes that id and nothing else |
| IdTables.ToggleRefinesIff | fortran/grib_fortran.cc:694-719 | clearing without the guard is a removal exactly when the id is not the negated id of a freed slot, which it revives |
| IdTables.RunRefines | fortran/grib_fortran.cc:274-330 | in every run the table stands for the map after the same operations, and the list is as long as the largest number of ids ever in use at once |
| IdTables.StaleIdsReached | fortran/grib_fortran.cc:576-585 | both exceptions are reached by a push and a clear: -1 finds the stale pointer, and clearing -1 unguarded brings id 1 back |
| IdTables.HandlesBelowFilesIff | fortran/grib_fortran.cc:30-34 | handle ids stay below every file id exactly in runs that never hold 50000 handles at once |
| IdTables.HandleIsNoFile | fortran/grib_fortran.cc:30-34 | in such runs no live handle id is a live file id, whatever is done to the files |
| ScaleFactor.ComputeAlgorithm1 | src/codes_util.cc:325-351 | success exactly when the stripped value is below its limit and the factor within its limit, and then that value and factor |
| ScaleFactor.Algorithm1Result | src/codes_util.cc:325-351 | the result is within half a unit of its last digit, has no trailing decimal zeros, keeps the sign, and is below both limits |
| ScaleFactor.Algorithm1FailsIff | src/codes_util.cc:336-346 | it returns the scaled input without decimal zeros at its end, whatever way that is written, and fails exactly when its value reaches the value limit or its factor exceeds the factor limit |
| ScaleFactor.ScaledDigits | src/codes_util.cc:336 | the scaled input has as many digits before the point as the value limit |
| ScaleFactor.RoundNearest | src/codes_util.cc:337 | rounding gives the nearest integer, halves away from zero |
| ScaleFactor.StripKeepsNumber | src/codes_util.cc:339-342 | removing trailing zeros does not change the number |
| ScaleFactor.ComputeAlgorithm2 | src/codes_util.cc:353-394 | the value at the factor where the search ends is within 1/8388608 of the input, or it or the factor has reached its limit, or the next value would exceed its limit, and none of that holds at a smaller factor; the value is the rounding there with the sign of the input; an error exactly for zero |
| ScaleFactor.FirstStopAccuracy | src/codes_util.cc:367-381 | the same for every input, limit and factor at which the search stops first |
| ScaleFactor.NearestEvenIs | src/codes_util.cc:306 | a float sum is rounded to the nearest number of 24 bits, halves to the even one |
| ScaleFactor.FloatEpsilon | src/codes_util.cc:303-309 | the loop over float sums, rounded to 24 bits with halves to even, ends with 2^-23 = 1/8388608 |
| ScaleFactor.EpsilonIsSmallest | src/codes_util.cc:303-309 | it is the smallest power of two that gives a number of 24 bits when one is added |
| ScaleFactor.FirstStopLimitsIff | src/codes_util.cc:367-381 | value and factor respect their limits exactly when the rounded input and the factor zero do |
| ScaleFactor.SevenDecimals | src/codes_util.cc:369-381 | no search goes beyond seven decimals |
| ScaleFactor.Compute | src/codes_util.cc:396-407 | which algorithm the result comes from, how near it is when it comes from the second one, and exactly when value, its magnitude, and factor keep to the limits |
| ScaleFactor.LimitNotEnforced | src/codes_util.cc:396-407 | 300 with value limit 255 is returned as 300 |
| ScaleFactor.NegativeBeyondLimit | src/codes_util.cc:343-346 | -9.99 with limit 255 becomes -999, whose magnitude is not kept |
| ScaleFactor.Algorithm1MagnitudeIff | src/codes_util.cc:336-346 | the magnitude of the result keeps to the value limit exactly for positive inputs, digits within the limit, or a last digit zero that can be stripped |
| Shifts.ShiftIsArithmetic | src/grib_bits_any_endian.cc:185-186 | shifts and masks are multiplication, floor division and remainder by powers of two |

## Left out

- EncodeCommon: a value outside the range of the integer type is undefined in C; the model lets the conversion wrap around. The same holds for the other encoders.
- EncodeByte: the four copies of its loop differ only in the octets stored per value; they are one loop with the width as a parameter.
- EncodeUnrolled: the typed pointer of a big-endian machine is a second cursor; its alignment is not modelled.
- DecodeLongArray: widths above 64 (the mask is then undefined, or the accumulator loses whole octets) are not admitted.
- EncodeSignedLong: lengths above eight octets and the most negative 64-bit value (negation overflows) are not admitted.
- AdjustSizes: length fields are section_length accessors of one to eight octets that lie in the message and do not overlap; lengths of 2^63 or more (negative as a long), the total length of GRIB edition 1 and overflow of size_t are not modelled.
- UpdatePaddings: the paddings are pad with a fixed amount, padto, padtoeven and padtomultiple counting from the offset of an accessor before them plus a constant, and section_padding, which keeps its length; a padding whose expression reads other values from the message is not modelled.
- Replace: for accessors that have no section below them and store no section's length; the call that leaves lengths alone (update_lengths 0) is not modelled.
- Factory: the length given by the accessor's own initialisation is a parameter, and so is the id the key table gives a name.
- Run: a bound on the number of nodes (ids are C ints) is not modelled; closing and deleting are parameters; locking is left out.
- Compute: exact reals; the maximum must be at least 1 (its logarithm is taken), and overflow of 64-bit integers is not modelled.
- EncodeUnsignedLong: for octets that lie in the array, the one that is cleared behind a short number included.
- CreateMessage: for lists whose sections count right on the way (`Regular`) and handles that are no partial ones; when an accessor cannot be made, what the source does with the part that was made (it adjusts it) is not modelled. Action classes other than gen and template, values set by a loader, flags and definitions files are left out; the mark of a padding is looked up when the padding is made, not each time its size is asked for.
- Create: while an accessor before counts wrong, only the factory and the push are modelled, not what is built on top of it.
- The size_t and string codecs of src/grib_bits_any_endian.cc: a further pair of readers and writers of the same kind.
- The big-endian, vector and IBM variants of the array codecs.
- Index, multi-handle and iterator tables of the Fortran interface: copies of the handle table.
- BUFR decoding, keys iterators, action classes, expressions, definitions files, dumping, I/O, logging, memory management: outside this model.
- IEEE rounding of the floating-point computations.
