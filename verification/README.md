# Verified model of XMHF's hardware interface core

This project models the parts of XMHF (in the uberSpark repository) in which loops and bit
arithmetic decide what the machine does, and proves what those parts are for:

- **The MTRR manager.** Setting a byte range to a memory type, saving, restoring and validating the
  memory type range registers. The target is the memory type of every physical page, as section
  11.11 of the Intel 64 and IA-32 Software Developer's Manual, Volume 3A defines it (a variable range
  matches a page when page and base agree under the mask; section 11.11.4.1 gives the precedence).
- **The formatted printer.** One directive interpreter that writes either to an unbounded buffer or,
  through `snprintf_func`, to a bounded one.
- **The spin lock.** The instruction steps of any number of CPUs over one lock word.
- **The VT-d register model.** An address-decoded register file with command side effects.
- **memmove** and **the routine that finds the TSS base**, the latter as a run of the CPU model.

| file | contents |
|---|---|
| `MachineTypes.dfy` | the machine's unsigned integers, and optional values |
| `Bits.dfy` | natural numbers as machine words: fields, masks, rounding, AND, OR, top bit, population count |
| `MtrrRegisters.dfy` | register layouts, pack and unpack macros, MSR numbers |
| `MemoryTypes.dfy` | the memory type of a page |
| `SetMemType.dfy` | which ranges `set_mem_type` programs and which pages they match |
| `ValidateMtrrs.dfy` | what `validate_mtrrs` tests and what acceptance means for pages |
| `MsrFile.dfy` | the MSRs as a map, and the MTRRs seen in it |
| `MtrrManager.dfy` | the manager's operations as methods on a machine with MSRs, and their compositions |
| `Ksprintn.dfy`, `NumberField.dfy`, `PrintfText.dfy` | digits, numeric fields, and the text of a call |
| `ListConversions.dfy`, `FormatLaws.dfy` | what the dump and bit-name conversions print, and what whole formats print |
| `DirectiveSyntax.dfy`, `PrintfCalls.dfy` | how directives are written and read, and what each call with one directive prints |
| `Kvprintf.dfy` | the interpreter with its sinks |
| `SpinLock.dfy`, `Vtd.dfy`, `Memmove.dfy`, `GetTssBase.dfy` | the remaining cores |

`dafny verify dfyconfig.toml` checks the whole project.

Imperative code is modelled by methods and classes that are proved equal to specification functions;
the properties are then lemmas about those functions. Words are natural numbers read bit by bit: a
mask of low bits is `Low`, a field is `Field`, and an OR of fields that do not overlap is `Insert`;
`And`, `Or` and the bit tests are the machine's own operations. Only the spin lock's word and the VT-d
registers are bit vectors.

## Where the code differs from what it says

- The comment on `set_mem_type` (src/libs/libxmhfhw/xmhfhw_cpu_mtrrsetmemtype.c:54) promises the type
  for the bytes from base to base + size and uncached for everything else. For a successful call with
  MTRRs enabled, `SetMemType.PromiseExact` gives the exact condition (unless the type is uncached
  anyway). Two things are needed. The pages must be counted right: rounding the size up must not wrap
  at 32 bits, and the bytes must not straddle one page more than the size needs. And the pages counted
  must be representable: the first is aligned to the largest power of two in their number, and they
  end below 4 GB. `SetMemType.PromiseBroken` has an input for each way of counting wrong (a size in the
  last page below 4 GB becomes zero pages; a page of bytes that starts inside a page), and
  `SetMemType.MisalignedSpills` the page that goes wrong when the first is misaligned.
  `SetMemType.SetExact` is the condition in terms of the pages the code counted.
- `set_mem_type` returns false when the last page was covered by the last register: it succeeds iff
  the page count has fewer set bits than there are registers (`SetMemType.SetSucceeds`), while the
  pages are all covered already when it has as many (`SetMemType.SetCovers`).
- `validate_mtrrs` is sound (`ValidateMtrrs.AcceptedIsDefined`) but rejects some register states in
  which every page has a defined type (`ValidateMtrrs.DefinedButRejected`): it asks for one uncached
  range that contains a whole range. `ValidateMtrrs.AcceptsIsPageRule` is the exact rule.
- The annotations of `validate_mtrrs` and the restore function ask for fewer than 16 saved ranges,
  but the save function can store 16. The methods here accept 16.
- The annotation of the restore function asks for a valid pointer, but the code returns on a null
  pointer; the model does too.

## Model

| member | source | states |
|---|---|---|
| MtrrRegisters.CapFields | src/hwm/include/xmhfhwm_cpu.h:568-584 | unpacking a packed capability register gives every field back, cut to its width |
| MtrrRegisters.CapRoundTrip | src/hwm/include/xmhfhwm_cpu.h:568-584 | packing an unpacked 64-bit capability value gives the same value, for all 2^64 values |
| MtrrRegisters.DefTypeFields | src/hwm/include/xmhfhwm_cpu.h:596-612 | unpacking a packed default-type register gives every field back, cut to its width |
| MtrrRegisters.DefTypeRoundTrip | src/hwm/include/xmhfhwm_cpu.h:596-612 | packing an unpacked default-type value gives the same value |
| MtrrRegisters.PhysBaseFields | src/hwm/include/xmhfhwm_cpu.h:624-636 | unpacking a packed range base gives every field back, cut to its width |
| MtrrRegisters.PhysBaseRoundTrip | src/hwm/include/xmhfhwm_cpu.h:624-636 | packing an unpacked range base gives the same value |
| MtrrRegisters.PhysMaskFields | src/hwm/include/xmhfhwm_cpu.h:648-660 | unpacking a packed range mask gives every field back, cut to its width |
| MtrrRegisters.PhysMaskRoundTrip | src/hwm/include/xmhfhwm_cpu.h:648-660 | packing an unpacked range mask gives the same value |
| MtrrRegisters.CapLayout | src/hwm/include/xmhfhwm_cpu.h:578-584 | each capability field is the value shifted and masked, in plain arithmetic |
| MtrrRegisters.DefTypeLayout | src/hwm/include/xmhfhwm_cpu.h:606-612 | the same for the default type |
| MtrrRegisters.PhysBaseLayout | src/hwm/include/xmhfhwm_cpu.h:632-636 | the same for a range base |
| MtrrRegisters.PhysMaskLayout | src/hwm/include/xmhfhwm_cpu.h:656-660 | the same for a range mask |
| MtrrManager.Bsrl | src/hwm/xmhfhwm_cpu.c:282-291 | the downward scan stops at the top set bit of any nonzero word |
| MtrrManager.Fls | src/libs/libxmhfhw/xmhfhw_cpu_fls.c:56-62 | one more than the position of the top set bit, and 0 for 0 |
| SetMemType.ProgramRounds | src/libs/libxmhfhw/xmhfhw_cpu_mtrrsetmemtype.c:106-142 | true iff there are more registers than set bits in the page count, nothing left over iff there are at least as many |
| SetMemType.RangesProgrammed | src/libs/libxmhfhw/xmhfhw_cpu_mtrrsetmemtype.c:106-142 | as many ranges become valid as the page count has set bits, or all registers if those are fewer |
| SetMemType.ProgramConserves | src/libs/libxmhfhw/xmhfhw_cpu_mtrrsetmemtype.c:106-142 | pages programmed plus pages left equal the original count, and the blocks get strictly smaller |
| SetMemType.ProgramCovers | src/libs/libxmhfhw/xmhfhw_cpu_mtrrsetmemtype.c:106-142 | for a representable range each page programmed is matched exactly once and no other page is matched |
| SetMemType.BlockHits | src/libs/libxmhfhw/xmhfhw_cpu_mtrrsetmemtype.c:110-125 | the base and mask programmed for a block match exactly the aligned block of pages around the base |
| SetMemType.SetSucceeds | src/libs/libxmhfhw/xmhfhw_cpu_mtrrsetmemtype.c:80-142 | the call returns true iff the page count has fewer set bits than there are registers, of which there are at most 16 |
| SetMemType.SetCovers | src/libs/libxmhfhw/xmhfhw_cpu_mtrrsetmemtype.c:59-143 | whichever result, each page of a representable range is matched by exactly one range as far as the registers reach, and every other 24-bit page by none |
| SetMemType.SetUniform | src/libs/libxmhfhw/xmhfhw_cpu_mtrrsetmemtype.c:59-143 | every range left valid has the requested type, a contiguous mask and no reserved bit set |
| SetMemType.SetKeeps | src/libs/libxmhfhw/xmhfhw_cpu_mtrrsetmemtype.c:70-94 | the enable bit, the reserved default-type fields and the pairs that no round needs are kept, the latter but for their valid bits; with more than 16 ranges all pairs are kept |
| SetMemType.TypeAfterSet | src/libs/libxmhfhw/xmhfhw_cpu_mtrrsetmemtype.c:59-143 | with MTRRs enabled a page has the requested type if a range matches it, and is uncached otherwise |
| SetMemType.SetExact | src/libs/libxmhfhw/xmhfhw_cpu_mtrrsetmemtype.c:54-143 | a successful call with MTRRs enabled gives exactly the pages it counted the requested type and all others uncached iff they are representable or the type is uncached |
| SetMemType.PromiseExact | src/libs/libxmhfhw/xmhfhw_cpu_mtrrsetmemtype.c:54-143 | a successful call with MTRRs enabled gives each page that holds a byte from base to base + size the type and leaves all others uncached iff the pages are counted right and representable, or the type is uncached |
| SetMemType.PromiseBroken | src/libs/libxmhfhw/xmhfhw_cpu_mtrrsetmemtype.c:97-110 | two inputs whose counted pages are representable and whose successful calls still leave a page of the byte range uncached |
| SetMemType.WrongPage | src/libs/libxmhfhw/xmhfhw_cpu_mtrrsetmemtype.c:106-140 | a range that is not representable matches the page before it or leaves its page at 4 GB unmatched |
| SetMemType.MisalignedSpills | src/libs/libxmhfhw/xmhfhw_cpu_mtrrsetmemtype.c:110-122 | a misaligned range also matches the page before it |
| SetMemType.NothingAbove | src/libs/libxmhfhw/xmhfhw_cpu_mtrrsetmemtype.c:106-140 | the page at 4 GB is never matched, because the byte base wraps at 32 bits |
| SetMemType.TouchedPages | src/libs/libxmhfhw/xmhfhw_cpu_mtrrsetmemtype.c:97-110 | the pages counted are the pages that the byte range touches iff rounding up does not wrap and the bytes do not straddle an extra page |
| MtrrManager.Machine.UncacheDefault | src/libs/libxmhfhw/xmhfhw_cpu_mtrrsetmemtype.c:70-75 | of all MSRs only the default type changes: fixed ranges off, default uncached, every other field kept |
| MtrrManager.Machine.ClearRange | src/libs/libxmhfhw/xmhfhw_cpu_mtrrsetmemtype.c:89-94 | only one mask register changes, and in it only the valid bit |
| MtrrManager.Machine.ProgramRange | src/libs/libxmhfhw/xmhfhw_cpu_mtrrsetmemtype.c:107-125 | one register pair reads back as the block of 2^k pages from the base with the type; nothing else changes |
| MtrrManager.Machine.ProgramPages | src/libs/libxmhfhw/xmhfhw_cpu_mtrrsetmemtype.c:96-142 | the loop over 64-bit registers and a wrapping byte base refines the specification on unpacked ranges, and runs one round, of two writes, for each set bit of the page count until registers run out |
| MtrrManager.NextBasePage | src/libs/libxmhfhw/xmhfhw_cpu_mtrrsetmemtype.c:133 | advancing the 32-bit byte base advances the page base by the block, both wrapping at 4 GB |
| MtrrManager.Machine.SetMemType | src/libs/libxmhfhw/xmhfhw_cpu_mtrrsetmemtype.c:59-143 | result and registers are those of the specification, and no MSR other than the default type and the used pairs changes |
| MtrrManager.MaskIsContiguous | src/libs/libxmhfhw/xmhfhw_cpu_mtrrvalidate.c:92-109 | the two scans accept a 24-bit mask iff it is 2^24 - 2^k for some k from 0 to 24 |
| ValidateMtrrs.OverlapIsSharing | src/libs/libxmhfhw/xmhfhw_cpu_mtrrvalidate.c:142-146 | the overlap test on contiguous ranges holds iff some page matches both, and then the smaller block lies in the larger |
| ValidateMtrrs.CoversIsContainment | src/libs/libxmhfhw/xmhfhw_cpu_mtrrvalidate.c:183-191 | the cover test holds iff every page of the one range is a page of the other |
| ValidateMtrrs.SharedPageExcused | src/libs/libxmhfhw/xmhfhw_cpu_mtrrvalidate.c:134-197 | in an accepted state a page in two ranges of clashing types is also in an uncached range |
| ValidateMtrrs.CompatibleIsDefined | src/libs/libxmhfhw/xmhfhw_cpu_mtrrvalidate.c:148-158 | the type test lets a pair pass iff the manual defines the type of a page that has both types |
| ValidateMtrrs.AcceptedIsDefined | src/libs/libxmhfhw/xmhfhw_cpu_mtrrvalidate.c:57-204 | in an accepted state no 24-bit page has an undefined memory type |
| ValidateMtrrs.AcceptsIsPageRule | src/libs/libxmhfhw/xmhfhw_cpu_mtrrvalidate.c:57-204 | acceptance is exactly this rule on pages: whenever two ranges share pages and the manual does not define the type of a page with their types, one uncached range matches all the pages they share |
| ValidateMtrrs.DefinedPairsAccepted | src/libs/libxmhfhw/xmhfhw_cpu_mtrrvalidate.c:57-204 | contiguous ranges are accepted when the manual defines the type of a page of each two that share one |
| ValidateMtrrs.DefinedButRejected | src/libs/libxmhfhw/xmhfhw_cpu_mtrrvalidate.c:161-197 | a register state that is rejected although every page has a defined type |
| ValidateMtrrs.OneTypeAccepted | src/libs/libxmhfhw/xmhfhw_cpu_mtrrvalidate.c:57-204 | contiguous ranges of a single type are accepted |
| MtrrManager.IsExcused | src/libs/libxmhfhw/xmhfhw_cpu_mtrrvalidate.c:171-195 | the inner loop finds whether some uncached range contains one of the two ranges |
| MtrrManager.OverlapsBadly | src/libs/libxmhfhw/xmhfhw_cpu_mtrrvalidate.c:134-198 | the middle loop finds whether a range makes a bad pair with a later one |
| MtrrManager.Machine.ValidateMtrrs | src/libs/libxmhfhw/xmhfhw_cpu_mtrrvalidate.c:57-204 | the nested loops with their early exits return exactly the acceptance predicate |
| MsrFile.WithEnableBits | src/libs/libxmhfhw/xmhfhw_cpu_mtrrenabledisable.c:54-63 | the read-modify-write changes bit 11 of the default-type register and none of its other 63 bits |
| MtrrManager.Machine.SetAllMtrrs | src/libs/libxmhfhw/xmhfhw_cpu_mtrrenabledisable.c:54-63 | one write, which sets the enable bit of the default-type register as asked; no other MSR changes |
| MtrrManager.Machine.SaveMtrrs | src/libs/libxmhfhw/xmhfhw_cpu_mtrrsave.c:59-88 | the saved state is the unpacked default type and every pair in use; array entries beyond are kept |
| MtrrManager.Machine.RestorePair | src/libs/libxmhfhw/xmhfhw_cpu_mtrrrestore.c:74-81 | writes one pair back, the mask first, with MTRRs disabled after each of the two writes |
| MtrrManager.Machine.RestoreMtrrs | src/libs/libxmhfhw/xmhfhw_cpu_mtrrrestore.c:57-87 | the saved registers are written back, and in every intermediate state up to the final write MTRRs are disabled; a null state changes nothing |
| MsrFile.RestoreUndoes | src/libs/libxmhfhw/xmhfhw_cpu_mtrrrestore.c:57-87 | restoring what was saved undoes any change confined to the default type and the saved pairs, on the whole MSR map |
| MtrrManager.SaveSetRestore | src/libs/libxmhfhw/xmhfhw_cpu_mtrrrestore.c:57-87 | save, set a memory type with any arguments and either result, restore: every MSR is as before |
| MtrrManager.SetIsAccepted | src/libs/libxmhfhw/xmhfhw_cpu_mtrrvalidate.c:57-204 | the ranges left by set_mem_type satisfy the acceptance predicate, for any arguments and either result |
| MtrrManager.SetSaveValidate | src/libs/libxmhfhw/xmhfhw_cpu_mtrrsave.c:59-88 | setting a memory type and saving gives a state that validates |
| Ksprintn.DigitsEval | src/libs/libxmhfdebug/subr_prf.c:204-218 | the digits evaluate to the number in every base from 2 to 36 |
| Ksprintn.NoLeadingZero | src/libs/libxmhfdebug/subr_prf.c:204-218 | the first digit is 0 iff the number is 0 |
| Ksprintn.DigitsCase | src/libs/libxmhfdebug/subr_prf.c:212-213 | the letters among the digits are upper-case just when asked |
| Ksprintn.DigitsFit | src/libs/libxmhfdebug/subr_prf.c:63-64 | a k-bit number has at most k digits in any base, so the 65-byte buffer suffices |
| Ksprintn.WriteDigits | src/libs/libxmhfdebug/subr_prf.c:204-218 | the buffer read from the returned place down to the NUL holds the digits; at most 64 are written |
| NumberField.NumberLength | src/libs/libxmhfdebug/subr_prf.c:501-544 | the field is as wide as the larger of the width and sign, prefix and digits, with the precision or zero padding counted in |
| NumberField.NumberLayout | src/libs/libxmhfdebug/subr_prf.c:506-544 | every character of a field from width, precision and flags: where the spaces, sign, prefix, zeros and digits are |
| NumberField.ZeroPaddedHasNoSpace | src/libs/libxmhfdebug/subr_prf.c:517-518 | a right-justified zero-padded field has no space in it |
| NumberField.ParseNumberText | src/libs/libxmhfdebug/subr_prf.c:501-544 | a numeric field reads back as its sign and number for every width, precision, flag, base and case |
| PrintfText.SignedArgConverts | src/libs/libxmhfdebug/subr_prf.c:484-500 | a signed argument has the range of the type its length modifiers name and is congruent to the bits passed |
| PrintfText.UnsignedArgConverts | src/libs/libxmhfdebug/subr_prf.c:465-482 | the same for unsigned arguments, except that a lone t modifier sign-extends to 64 bits |
| PrintfText.NumberReadsBack | src/libs/libxmhfdebug/subr_prf.c:465-544 | a signed or unsigned number argument, printed in any base and field, reads back as its value in the type the modifiers name |
| PrintfText.ConversionReadsBack | src/libs/libxmhfdebug/subr_prf.c:371-544 | so does what each of the conversions d, i, o, r, u, x, X and y prints, read in the base that the conversion names |
| PrintfText.PointerReadsBack | src/libs/libxmhfdebug/subr_prf.c:412-417 | a printed pointer reads back as the pointer, in a reading that allows a 0x prefix just when there is no width |
| PrintfText.DecimalReadsBack | src/libs/libxmhfdebug/subr_prf.c:371-375 | a whole call with %d has a text, and it reads back as the signed argument |
| PrintfText.StringLayout | src/libs/libxmhfdebug/subr_prf.c:426-446 | every character of a string conversion from width, precision and flags |
| DirectiveSyntax.DirectiveReadsBack | src/libs/libxmhfdebug/subr_prf.c:282-330 | for every directive with switches in any order and number, a decimal or asterisk width and precision, and a length modifier, the interpreter arrives at the conversion with exactly the flags it stands for, and takes the asterisks' arguments |
| PrintfCalls.Call | src/libs/libxmhfdebug/subr_prf.c:274-557 | a call with any such directive prints its conversion under those flags |
| PrintfCalls.StringCall | src/libs/libxmhfdebug/subr_prf.c:426-446 | %s with any width, precision and flags prints the cut and padded string, character by character |
| PrintfCalls.PlainString | src/libs/libxmhfdebug/subr_prf.c:426-446 | a bare %s prints its string, and a null pointer as (null) |
| PrintfCalls.NumberCall | src/libs/libxmhfdebug/subr_prf.c:371-544 | %d, %i, %o, %r, %u, %x, %X and %y with any flags, width, precision and length modifier print the argument's value in the type named, in the field asked for, and take an argument of the right size |
| PrintfCalls.PlainNumbers | src/libs/libxmhfdebug/subr_prf.c:409-457 | bare %u, %o, %x and %X print the digits in their base and letter case |
| PrintfCalls.RegisterCall | src/libs/libxmhfdebug/subr_prf.c:453-544 | %08x prints the hexadecimal digits of a word with zeros in front up to eight characters |
| PrintfCalls.PointerCall | src/libs/libxmhfdebug/subr_prf.c:412-417 | %p prints 0x and the hexadecimal digits, and 0 for a null pointer |
| PrintfCalls.CharacterCalls | src/libs/libxmhfdebug/subr_prf.c:299-356 | %c prints the low byte of its argument, and %% a percent sign |
| PrintfCalls.DumpCall | src/libs/libxmhfdebug/subr_prf.c:357-370 | %D dumps as many bytes as its width says, or 16 |
| PrintfCalls.BitsCall | src/libs/libxmhfdebug/subr_prf.c:331-353 | %b prints the bit conversion of its two arguments |
| PrintfCalls.UnknownCall | src/libs/libxmhfdebug/subr_prf.c:545-555 | an unknown conversion prints the directive as it is written |
| PrintfCalls.NullFormat | src/libs/libxmhfdebug/subr_prf.c:268-269 | a null format prints its own text |
| PrintfText.StoppedIsVerbatim | src/libs/libxmhfdebug/subr_prf.c:545-555 | after an unknown conversion the rest of the format is printed unchanged |
| ListConversions.BitsAreNamed | src/libs/libxmhfdebug/subr_prf.c:331-353 | for any list of named bits the b conversion prints the number in the given base and then exactly the names of the bits that are set, in order, in angle brackets |
| ListConversions.BitsReadBack | src/libs/libxmhfdebug/subr_prf.c:331-338 | the digits that a b conversion starts with evaluate to the number, whatever the description |
| ListConversions.DocumentedExample | src/libs/libxmhfdebug/subr_prf.c:225-240 | the documented example prints what the documentation says |
| ListConversions.DumpReadsBack | src/libs/libxmhfdebug/subr_prf.c:357-370 | a dump reads back as its bytes from lower-case hexadecimal digits, for every separator |
| ListConversions.DumpLength | src/libs/libxmhfdebug/subr_prf.c:357-370 | a dump has two characters a byte and a separator between bytes |
| FormatLaws.PlainPrintsItself | src/libs/libxmhfdebug/subr_prf.c:277-281 | a format without directives prints itself |
| FormatLaws.FormatsConcatenate | src/libs/libxmhfdebug/subr_prf.c:274-557 | two formats in one print their two texts, each with its own arguments; after an unknown directive the second is printed as it stands |
| Kvprintf.StoreAllIsPrefix | src/libs/libxmhfdebug/subr_prf.c:187-196 | characters stored one by one through the bounded sink leave the longest prefix that fits and touch nothing else |
| Kvprintf.StoredImage | src/libs/libxmhfdebug/subr_prf.c:181-183 | the final NUL lands inside the buffer, directly after what was stored, and size 0 leaves the buffer alone |
| Kvprintf.BoundedRefinesUnbounded | src/libs/libxmhfdebug/subr_prf.c:157-196 | the bounded buffer holds the first size - 1 characters of the unbounded output and a NUL |
| Kvprintf.Output.PChar | src/libs/libxmhfdebug/subr_prf.c:249 | one character is appended to the output of either sink and counted |
| Kvprintf.Output.EmitNumber | src/libs/libxmhfdebug/subr_prf.c:506-544 | the width arithmetic and the loops print exactly spaces, sign, prefix, zeros, digits, spaces |
| Kvprintf.Output.EmitString | src/libs/libxmhfdebug/subr_prf.c:426-446 | prints the characters that the precision allows, padded to the width on the asked side |
| Kvprintf.Output.EmitDump | src/libs/libxmhfdebug/subr_prf.c:357-370 | prints two hexadecimal digits for each byte with the separator between bytes |
| Kvprintf.Output.EmitBits | src/libs/libxmhfdebug/subr_prf.c:331-353 | prints the number in the base given and the names of the bits that are set |
| Kvprintf.Output.Convert | src/libs/libxmhfdebug/subr_prf.c:286-556 | each conversion prints its text and uses up its arguments |
| Kvprintf.Output.EmitDirective | src/libs/libxmhfdebug/subr_prf.c:282-556 | flags, width, precision and length modifiers in any order lead to the specified text and resume after the directive |
| Kvprintf.Output.Interpret | src/libs/libxmhfdebug/subr_prf.c:246-559 | the interpreter prints the text of the call to either sink and returns its full length |
| Kvprintf.Vsprintf | src/libs/libxmhfdebug/subr_prf.c:128-136 | the output is the text and a NUL, and the result its length |
| Kvprintf.Vsnrprintf | src/libs/libxmhfdebug/subr_prf.c:173-185 | the buffer holds the first size - 1 characters of the text and a NUL, with the rest untouched; the result is the full length |
| Kvprintf.Vsnprintf | src/libs/libxmhfdebug/subr_prf.c:156-168 | the same with radix 10 |
| SpinLock.CpuStepFacts | src/hwm/xmhfhwm_cpu.c:753-785 | one instruction of one CPU moves the lock between the word and the CPU and keeps the other 31 bits |
| SpinLock.StepInv | src/libs/libxmhfhw/xmhfhw_cpu_spinlock.cS:52-63 | every step of every CPU keeps the invariant: lock bit plus holders is one, and a word fetched by an unlocking CPU is current |
| SpinLock.RunInv | src/libs/libxmhfhw/xmhfhw_cpu_spinlock.cS:52-63 | so does every schedule of steps |
| SpinLock.MutualExclusion | src/libs/libxmhfhw/xmhfhw_cpu_spinlock.cS:52-63 | for any number of CPUs and any interleaving no two CPUs hold the lock, and bit 0 plus the number of holders is always one |
| SpinLock.UndisturbedRoundTrip | src/libs/libxmhfhw/xmhfhw_cpu_spinunlock.cS:53-59 | alone, a CPU takes a free lock in seven steps and five steps later the lock word is as it was |
| SpinLock.LockBit | src/hwm/xmhfhwm_cpu.c:753-785 | the lock is bit 0 of the word |
| SpinLock.LeavesWithLock | src/libs/libxmhfhw/xmhfhw_cpu_spinlock.cS:52-63 | under every schedule a CPU in spin_lock is still in it or has come out of it with the lock taken |
| SpinLock.TakesFreeLock | src/libs/libxmhfhw/xmhfhw_cpu_spinlock.cS:54-61 | alone with a free lock, a CPU anywhere in spin_lock is inside within six steps, having cleared bit 0 and nothing else |
| SpinLock.WaitsWhileTaken | src/libs/libxmhfhw/xmhfhw_cpu_spinlock.cS:55-60 | while the lock is taken, a waiting CPU stays in spin_lock and changes nothing |
| Vtd.WriteUnitFrame | src/hwm/xmhfhwm_vtd.c:289-485 | a write changes the addressed register, and the status register when it enables translation; no address moves |
| Vtd.WriteFrame | src/hwm/xmhfhwm_vtd.c:283-495 | over all units: only the first unit that has the address changes |
| Vtd.ReadBack | src/hwm/xmhfhwm_vtd.c:123-280 | a read after any sequence of writes finds what the writes to that register's own unit left there |
| Vtd.LastWriteReadsBack | src/hwm/xmhfhwm_vtd.c:123-280 | a register other than the global status reads back the effect of the last value written to it |
| Vtd.ValuesReadBack | src/hwm/xmhfhwm_vtd.c:283-495 | plain registers, and command registers without a command, read back exactly the low 32 bits last written; the protected-memory register does but for bit 0, which reads as bit 31 |
| Vtd.CommandShowsInStatus | src/hwm/xmhfhwm_vtd.c:296-306 | after a global command write, the same unit's global status reads as before but for bit 31, which is set when bit 31 of the command is |
| Vtd.StatusAfter | src/hwm/xmhfhwm_vtd.c:283-495 | after any writes, bit 31 of the global status is set iff the initial contents or the last status write had it set or an enabling command came after; the other bits are unchanged |
| Vtd.WriteUnitConsistent | src/hwm/xmhfhwm_vtd.c:324-335 | a write keeps protected-memory status equal to enable, and no command pending |
| Vtd.ReachableConsistent | src/hwm/xmhfhwm_vtd.c:283-495 | so does any sequence of writes to any units |
| Vtd.AlwaysConsistent | src/hwm/xmhfhwm_vtd.c:56-118 | in particular from the two units the model starts with |
| Vtd.EveryRegisterAnswers | src/hwm/xmhfhwm_vtd.c:56-118 | no register of the two initial units is hidden behind another one's address |
| Vtd.NamedRegisters | src/hwm/include/xmhfhwm_vtd.h:57-70 | each named 32-bit register of both initial units answers at its offset |
| Vtd.NamedPairs | src/hwm/include/xmhfhwm_vtd.h:58-73 | each 64-bit register answers at its offset with its low half and four bytes further with its high half |
| Vtd.CcmdCompletes | src/hwm/xmhfhwm_vtd.c:391-415 | a context command with the invalidate bit, unpacked, has icc 0, caig equal to cirg and all other fields as written |
| Vtd.IotlbCompletes | src/hwm/xmhfhwm_vtd.c:447-473 | an IOTLB command with the invalidate bit, unpacked, has ivt 0, the low two bits of iaig equal to those of iirg and all other fields as written |
| Vtd.CommandsComplete | src/hwm/include/xmhfhwm_vtd.h:502-547 | after a command write through its address the unit's two halves unpack as the completed command |
| Vtd.Settle | src/hwm/xmhfhwm_vtd.c:324-473 | the step-by-step side effects give the value that the specification says |
| Vtd.RegisterModel.Read | src/hwm/xmhfhwm_vtd.c:123-280 | the loop over units returns the register that the address selects, and reports an address no unit has |
| Vtd.RegisterModel.Write | src/hwm/xmhfhwm_vtd.c:283-495 | the loop over units changes the array as the specification says |
| Memmove.Move | src/libs/libxmhfc/memmove.c:81-129 | in both directions the destination holds the old source bytes, overlap or not, and every other byte of memory is unchanged |
| Memmove.MoveBack | src/libs/libxmhfc/memmove.c:81-129 | moving bytes and moving them back leaves them at their source |
| GetTssBase.AssembledIsBase | src/libs/libxmhfhw/xmhfhw_cpu_gettssbase.cS:66-72 | shifting, masking and oring the two halves gives bytes 2, 3, 4 and 7 of the descriptor, its base |
| GetTssBase.DescriptorKept | src/hwm/xmhfhwm_cpu.c:395-402 | storing the table register does not change a descriptor outside the frame |
| GetTssBase.ReturnAddressKept | src/hwm/include/xmhfhwm_cpu.h:2672-2676 | nor the return address |
| GetTssBase.TableBase | src/hwm/xmhfhwm_cpu.c:395-402 | the base stored by sgdt reads back two bytes into the frame |
| GetTssBase.TableLimit | src/hwm/xmhfhwm_cpu.c:395-402 | the limit stored by sgdt reads back from the first two bytes |
| GetTssBase.Cpu.Run | src/libs/libxmhfhw/xmhfhw_cpu_gettssbase.cS:54-78 | returns the descriptor's base, pops only the return address, keeps ebx, esi, edi and ebp, and writes only six bytes of its frame |

## Left out

- A processor that reports no variable ranges: the loop of set_mem_type then writes pair 0, which does not exist and faults. `MsrFile.HasMtrrs` asks for at least one.
- The contents of the fixed-range MTRRs: a page below 1 MB with fixed ranges enabled has the type `FixedRange`, which is neither defined nor undefined here.
- MtrrManager.Machine.ValidateMtrrs: assumes that saved fields are within their widths and that at most 16 ranges are saved, which is what the save function stores.
- MtrrManager.SetSaveValidate: assumes at most 16 variable ranges, because with more set_mem_type returns early and leaves the earlier ranges in place.
- PrintfText.DecimalReadsBack: one directive without a field; NumberCall has every number directive, and FormatsConcatenate joins formats.
- DirectiveSyntax.DirectiveReadsBack: switches, width, precision and length modifier come in the usual order, and only switches are repeated; other orders, which the interpreter also reads, are covered by its specification only.
- The %n conversion, formats that end inside a directive, and arguments that are missing or of the wrong kind: such calls have no text (`Format` is `None`).
- Negating the least 64-bit integer wraps, and widths and precisions are unbounded integers, where C leaves both undefined.
- Integer and pointer sizes are those of the 32-bit target; a variable argument list is a sequence of typed arguments.
- Kvprintf.Vsprintf: the unbounded buffer is the sequence of characters stored in it, so running past its end cannot be seen.
- sprintf and snprintf, which only collect their arguments and call the modelled functions.
- Progress of the spin lock among contending CPUs: the code gives no fairness, so progress is stated for a CPU that runs alone.
- SpinLock.MutualExclusion: only CPUs that hold the lock unlock it; the lock's address in ecx and the return through the stack are single steps without effect.
- Vtd.RegisterModel.Write: the 24 register fields of a unit are one sequence indexed by register, and the annotations on access sizes are not modelled.
- The pack macros of the VT-d capability, root and protected-memory registers.
- GetTssBase.Cpu.Run: asks that the descriptor does not overlap the stored table register, since the code reads the descriptor after storing it.
- The verification-driver hooks called when esp changes.
- The sidt, rdmsr, wrmsr and compare instructions of the CPU model, single-instruction wrappers, paging structures, the VMX, SMX, port and PCI parts, and memory and string helpers without overlap.
