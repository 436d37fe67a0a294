# Verified models of pcie_util

A Dafny project about the two halves of the repository: the command-line engine of
`pcie_enum` with its two device loops, and the device lifecycle and interrupt logic of
`xgpu_drv`. `dafny verify dfyconfig.toml` checks all of it.

## What is modelled

**The command-line engine** (`pcie_enum/cmdline.hpp`).

- `Tokenizer` is the string form of `parse`: a character loop with quotes, escapes and
  spaces, refined to a recursive automaton. What the automaton means is then said by
  position: which quotes and spaces are active, when it fails, where it cuts and which
  characters each word holds. A last empty token is dropped and inner empty ones are kept.
- `Options` holds declarations, readers and the mutable option objects. A reader is a
  partial function from strings to values; a C++ value type is a tag on the value.
- `ArgScanner` is the lexer: argument words become events, given only the declared names,
  whether each takes a value, and the index of short names. A bare `--` is the long
  option with the empty name; a bare `-` is skipped.
- `Grammar` describes the accepted command lines as lists of items. Deriving the items of
  a line is the inverse of writing them.
- `ParserSpec` gives the effect of each call on the parser's whole state, and shows that
  errors, positionals and option values are determined separately by the events.
- `Parser` is the parser object with its fields and loops. `ParseArgv` interleaves
  scanning and setting, and is proved to lex first and apply the events afterwards. Every
  key the scan reads with `options[...]` or `lookup[...]` is present, so none is inserted.
- `CommandLines` says when a parse succeeds and what it leaves; `ParserRuns` says what
  holds after any sequence of `add` and `parse` calls.

A word is modelled by its characters in front of the terminating NUL. `ParseVector` cuts
its words there, as `c_str()` does.

**The device loops.** `RegionAmount` is the search for `resourceN` files over a fixed
finite set of paths; its termination rests on decimal suffixes never repeating.
`PciRegion` is the pair of flat dump loops, equal to a nested form for every
configuration length and every region count; printed output is a sequence of tokens, or
of lines of tokens.

**The driver** (`xgpu_drv/libxgpu.c`).

- `UserInterrupts` has the bits of a request word, the service of a line, runs of
  interrupts, and the packing of vector numbers into registers.
- `XgpuDevice` acquires and releases one device. `PciDev` holds the kernel's books about
  it: device enables, regions, BAR mappings, interrupts, interrupt mode and the registers
  written. The kernel's answers are an arbitrary `Outcomes` value, so every statement is
  about every pattern of failures. Labelled blocks stand for the `goto` chain.
- `XgpuDriver` is the list of open devices. `Valid(all)` is the invariant of every run of
  opens, closes, interrupts and offline or online calls: list order is index order, there
  is one entry per device, a listed device holds exactly what its entry records, its lines
  are as the interrupts handled so far leave them, and any other device holds nothing but
  regions. Ghost fields keep the opens of a device and the interrupts of a handle.

## What the proofs turned up

- PCI regions 2 and 5 are requested by name and never released, since the flag that would
  release them is set only in code that is compiled out. The regions held are in every
  reachable state all that any open was granted (`Recorded`). If the kernel refuses a
  region that is still held, at most one open of a device with BAR 2 or 5 ever succeeds
  (`OneOpenEver`), and one still can exactly when no earlier open got past a region that
  has a length (`CanStillOpen`); a device without these BARs can be opened again and again.
- The code never checks that BAR 1, which it takes for the configuration BAR, exists. It
  writes registers without it exactly when the regions, all mappings and a DMA mask are
  granted and BAR 1 has no length (`Faults`).
- The comment on `identify_bars` describes user logic BARs, but `map_bars` always passes
  position 0, so the user BAR is never identified, and the bypass BAR only when exactly
  two BARs exist. When these are BARs 0 and 1, the configuration BAR itself is recorded
  as the bypass BAR. `MapBars` states what the code does.
- A failed tokenization appends its error to those of the previous parse; every other
  failure replaces them (`UntokenizableText`, `ParseArgv`).
- Quoting a list of words is undone by tokenizing exactly when the list is empty or its
  last word is not (`TokenizeUndoesQuoting`).

## Assumptions

An open does not write registers without BAR 1 (`Faults`), and the kernel refuses a region
to a device with a live handle. The latter follows from refusing held regions when BAR 2
or 5 exists (`LiveIsRefused`); that such a device has at most one live handle is then
proved, not assumed. `0 <= user_max <= 16`, the number of interrupt slots. Interrupt
numbers fit in a non-negative `int`. `request_irq` and the other kernel calls return 0 or
a negative code on failure. The BAR lengths of a device do not change. Counters and indices
are unbounded integers; BAR lengths and request words have their C widths.

## Model

| member | source | states |
|---|---|---|
| Tokenizer.Tokenize | pcie_enum/cmdline.hpp:246-286 | the character loop yields exactly the automaton's tokens or its error |
| Tokenizer.FailsExactlyWhen | pcie_enum/cmdline.hpp:263-277 | tokenizing fails iff the string ends in an odd run of backslashes or has an odd number of unescaped quotes; the backslash is reported first |
| Tokenizer.SplitsAtSeparator | pcie_enum/cmdline.hpp:257-261 | cutting at any space that is neither escaped nor quoted concatenates the fields of both sides |
| Tokenizer.FieldContents | pcie_enum/cmdline.hpp:249-280 | there is one field more than there are active spaces, and field k is, in order, the characters behind k of them that are escaped or neither an active quote nor a backslash |
| Tokenizer.WordContents | pcie_enum/cmdline.hpp:246-286 | the same of the words, where a last field without characters is no word |
| Tokenizer.TokenizeUndoesQuoting | pcie_enum/cmdline.hpp:246-286 | any mix of escaped and quoted words, joined by spaces, tokenizes back; precisely a last empty word is lost |
| Options.Read | pcie_enum/cmdline.hpp:131-169 | a value is read iff the cast gives one that, for a range, is at least the lower and at most the upper bound or, for a one-of reader, in its list; it is then the cast's |
| Options.CmdOption.constructor | pcie_enum/cmdline.hpp:507-511 | a new option is unset and has its default |
| Options.CmdOption.Set | pcie_enum/cmdline.hpp:516-519 | setting without value: accepted by a flag, which is then set, refused and without effect otherwise |
| Options.CmdOption.SetValue | pcie_enum/cmdline.hpp:554-563 | setting to a value: accepted iff the option takes one and its reader accepts, then set to the reader's result; a refusal changes nothing |
| Options.CmdOption.IsValid | pcie_enum/cmdline.hpp:566-569 | invalid iff required and unset |
| ArgScanner.IndexOf | pcie_enum/cmdline.hpp:326 | the position of the first occurrence, or the length |
| ArgScanner.LexComposes | pcie_enum/cmdline.hpp:324-384 | the events of `a` then `b` are those of both together iff `b` is empty or `a` leaves no word awaiting a value |
| ArgScanner.BundleIsSingles | pcie_enum/cmdline.hpp:350-380 | `-xyz` has the events of `-x -y -z`, the value of the last letter included |
| ArgScanner.RolesAreUnique | pcie_enum/cmdline.hpp:324-384 | exactly one assignment of roles fits: a word is a consumed value iff the option word before it takes one, else its shape decides |
| ArgScanner.PositionalsAreWords | pcie_enum/cmdline.hpp:381-383 | the positional events are the positional words in order |
| Grammar.DeriveOfRender | pcie_enum/cmdline.hpp:324-384 | well-formed items are recovered from their words: the grammar is unambiguous |
| Grammar.DeriveIsSound | pcie_enum/cmdline.hpp:324-384 | a line is derivable iff lexing it reports no error, and then its events are its items' meanings |
| Grammar.LexOfRender | pcie_enum/cmdline.hpp:324-384 | the words of well-formed items lex to their meanings, without error |
| Grammar.HeadOfWords | pcie_enum/cmdline.hpp:325-380 | the first word of an item identifies it, and takes the next word iff the item has two |
| ParserSpec.LessIsPrecedes | pcie_enum/cmdline.hpp:310-311 | the name order of the option map is lexicographic: a proper prefix comes first, else the smaller character where two names first differ |
| ParserSpec.LessTotal | pcie_enum/cmdline.hpp:310-311 | the name order of the option map is total and strict |
| ParserSpec.InsertKeeps | pcie_enum/cmdline.hpp:196 | inserting a new name keeps the names in lexicographic order |
| ParserSpec.NoClashIsUnambiguous | pcie_enum/cmdline.hpp:309-322 | the index loop finds a clash iff two named options share a nonzero short name |
| ParserSpec.FirstClashIsLeast | pcie_enum/cmdline.hpp:309-322 | the clash found is that of the lexicographically first name that repeats the short name of an earlier one |
| ParserSpec.EventsDecompose | pcie_enum/cmdline.hpp:466-486 | errors are the complaints in order, `others` the positionals in order, each option is settled by its own bindings, declarations stay |
| ParserSpec.ScanComposes | pcie_enum/cmdline.hpp:324-384 | scanning `a` then `b` from the state reached leaves the same state as scanning both together, unless `a` leaves a word awaiting a value |
| ParserSpec.ScannedKeeps | pcie_enum/cmdline.hpp:298-384 | as `EventsDecompose` for one scan, from cleared errors and positionals |
| ParserSpec.NothingMissing | pcie_enum/cmdline.hpp:386-390 | no missing-option error iff every required option is set |
| ParserSpec.MissingInOrder | pcie_enum/cmdline.hpp:386-390 | the missing options are exactly the required ones that are unset, in lexicographic order |
| Parser.Parser.constructor | pcie_enum/cmdline.hpp:184-185 | a new parser is empty |
| Parser.Parser.Add | pcie_enum/cmdline.hpp:192-222 | a taken name is refused with its message and nothing changes; else the option is added once to the map and at the end of the order |
| Parser.Parser.Exist | pcie_enum/cmdline.hpp:227-232 | true iff the option is declared and set |
| Parser.Parser.Get | pcie_enum/cmdline.hpp:234-240 | the stored value of an option declared with the type asked for, or the error for an unknown name or another type |
| Parser.Parser.SetOption | pcie_enum/cmdline.hpp:466-475 | the effect of a flag event on the whole state |
| Parser.Parser.SetOptionValue | pcie_enum/cmdline.hpp:477-486 | the effect of a value event on the whole state |
| Parser.Parser.BuildLookup | pcie_enum/cmdline.hpp:309-322 | the index is the exact inverse of the short names, or the first clash in name order is the one error |
| Parser.Parser.ScanLong | pcie_enum/cmdline.hpp:325-349 | a long word has the lexer's events for it, consuming the next word iff it takes it |
| Parser.Parser.SetLetter | pcie_enum/cmdline.hpp:354-363 | one bundled letter has its event; the later ambiguity branch is unreachable |
| Parser.Parser.ScanShort | pcie_enum/cmdline.hpp:350-380 | a bundle has the lexer's events for it, consuming the next word iff its last letter takes it |
| Parser.Parser.ScanWords | pcie_enum/cmdline.hpp:324-384 | the index loop with lookahead equals lexing all words and applying the events |
| Parser.Parser.CheckRequired | pcie_enum/cmdline.hpp:386-390 | the missing-option errors follow, in the order of the sorted names |
| Parser.Parser.ParseArgv | pcie_enum/cmdline.hpp:298-392 | result and final state are those of the two-phase specification |
| Parser.Parser.ParseVector | pcie_enum/cmdline.hpp:288-296 | as `ParseArgv` on the C strings |
| Parser.Parser.ParseText | pcie_enum/cmdline.hpp:246-286 | as `ParseVector` on the tokens; a tokenizer error is appended and false returned |
| CommandLines.SucceedsExactlyWhen | pcie_enum/cmdline.hpp:302-391 | `parse` returns true iff there is a program name, short names are unambiguous, the words are spelled by accepted items, and every required option is set before or bound |
| CommandLines.SuccessSetsRequired | pcie_enum/cmdline.hpp:386-391 | after success every required option is set and there is no error |
| CommandLines.LongWordError | pcie_enum/cmdline.hpp:332-348 | the error of a lone `--n`: undefined, without value, or none |
| CommandLines.EqualsWordError | pcie_enum/cmdline.hpp:327-330 | the error of `--n=v`: undefined, invalid for a flag or a refusing reader, or none |
| CommandLines.ValueError | pcie_enum/cmdline.hpp:337-344 | the error of `--n v`: invalid iff the reader refuses |
| CommandLines.LetterError | pcie_enum/cmdline.hpp:353-380 | the error of a letter given no value: undefined, without value, or none |
| CommandLines.ErrorsOfParse | pcie_enum/cmdline.hpp:324-390 | all errors of a parse: those of the words in order, then `need option` for the unset required options in lexicographic order |
| CommandLines.ProgramName | pcie_enum/cmdline.hpp:302-307 | an empty vector is refused with its message; the first program name is kept |
| CommandLines.RenderThenParse | pcie_enum/cmdline.hpp:324-384 | a parser with nothing set takes from the words of accepted items exactly their flags, last bindings and positionals |
| CommandLines.RestIsPositionalWords | pcie_enum/cmdline.hpp:242-244 | `rest()` is the words whose role is positional, in order |
| CommandLines.CStrCuts | pcie_enum/cmdline.hpp:288-296 | a word given as a string is cut at its first NUL |
| CommandLines.TextOfQuotedWords | pcie_enum/cmdline.hpp:246-296 | parsing the quoted line is parsing its words, without the last one when it is empty |
| CommandLines.UntokenizableText | pcie_enum/cmdline.hpp:263-277 | a string that cannot be tokenized costs one more error and changes nothing else |
| ParserRuns.StepEffect | pcie_enum/cmdline.hpp:192-392 | each call keeps map, key order and declaration order consistent, and settles the known options by its events |
| ParserRuns.RunSettles | pcie_enum/cmdline.hpp:554-568 | over any run an option keeps its declaration, is never unset, and has the reader's result on the latest accepted value |
| ParserRuns.FreshRunsAreHonest | pcie_enum/cmdline.hpp:138-169 | in every reachable state a set range option is between its bounds, a set one-of option in its list, and an unset one has its default |
| ParserRuns.AmbiguityOrInverse | pcie_enum/cmdline.hpp:309-322 | either a shared short name fails the parse with one error, about the lexicographically first name that repeats one, and nothing set, or the index inverts the short names |
| RegionAmount.AppendDecimal | pcie_enum/region_amount.cpp:5-19 | the loop appends the decimal rendering of the number |
| RegionAmount.DecimalIsNumeral | pcie_enum/region_amount.cpp:9-18 | the rendering of a number is digits that read as it, without leading zeros |
| RegionAmount.NumeralIsDecimal | pcie_enum/region_amount.cpp:9-18 | only the rendering is: a number is written in one way |
| RegionAmount.DecimalOfNegative | pcie_enum/region_amount.cpp:9-18 | of a negative number, characters from '0' down to nine below it, the first not '0' |
| RegionAmount.ParseInvertsDecimal | pcie_enum/region_amount.cpp:9-18 | the rendering parses back to its number, negative ones included |
| RegionAmount.DecimalIsInjective | pcie_enum/region_amount.cpp:9-18 | different numbers have different renderings |
| RegionAmount.GetPciDeviceRegionAmount | pcie_enum/region_amount.cpp:21-35 | the search ends on every finite file set with -1 when `resource` is absent, else the least k without a `resourcek`, k written without leading zeros |
| PciRegion.ByteInRows | pcie_enum/pci_region.cpp:22-31 | byte c of the configuration is printed at position c + c/8 |
| PciRegion.NewlineInRows | pcie_enum/pci_region.cpp:26-30 | a newline is printed behind every eight bytes |
| PciRegion.LengthOfRows | pcie_enum/pci_region.cpp:22-31 | and nothing else is printed |
| PciRegion.DumpBytes | pcie_enum/pci_region.cpp:18-32 | the bytes in rows of eight |
| PciRegion.DumpRegions | pcie_enum/pci_region.cpp:35-52 | register r has a line iff r is below the count and the configuration reaches the byte before its first, for every configuration length and count |
| PciRegion.GroupHoldsRegister | pcie_enum/pci_region.cpp:40-50 | line r is label r and then exactly bytes 16+4r to 19+4r, as far as the configuration has them |
| UserInterrupts.RequestedOnce | xgpu_drv/libxgpu.c:294-299 | each requested line below the maximum occurs once among those served, no other line does |
| UserInterrupts.RequestedAscends | xgpu_drv/libxgpu.c:294-299 | lines are served in ascending order |
| UserInterrupts.EarlyExit | xgpu_drv/libxgpu.c:294 | leaving the loop with nothing pending misses no line |
| UserInterrupts.ResidueIsHighBits | xgpu_drv/libxgpu.c:294-299 | what the loop leaves is the request with the bits below the maximum cleared |
| UserInterrupts.ServedLine | xgpu_drv/libxgpu.c:225-245 | over any services a handler is called every time; a line without one is flagged and woken the first time only |
| UserInterrupts.ActionsAscend | xgpu_drv/libxgpu.c:225-300 | what an interrupt adds to the trace follows the earlier actions, one action at most for a line, in ascending line order, a handler call iff the line has a handler |
| UserInterrupts.RunServesAll | xgpu_drv/libxgpu.c:225-361 | the handlers of successive interrupts do what one pass over all lines they serve does |
| UserInterrupts.RunOfInterrupts | xgpu_drv/libxgpu.c:225-361 | over any run of interrupts, handled one after the other, a line without handler is flagged iff it ever fired and then woken exactly once; a handler is called once per firing |
| UserInterrupts.AfterVector | xgpu_drv/libxgpu.c:344-361 | serving one line extends a run by its interrupt and leaves the count of the shared handler |
| UserInterrupts.ReplicatedBytes | xgpu_drv/libxgpu.c:905-907 | the legacy word holds the pin in all four bytes |
| UserInterrupts.PackNext | xgpu_drv/libxgpu.c:681-682 | or-ing in a shifted number fills its byte and keeps the others |
| UserInterrupts.WordOfBytes | xgpu_drv/libxgpu.c:681-682 | the byte numbering used: byte 0 is the least significant, and the four bytes are the word |
| UserInterrupts.UnpackIsIdentity | xgpu_drv/libxgpu.c:674-690 | reading the programmed registers back gives 0, 1, 2, ..., and then zeros |
| XgpuDevice.PresentEnumerates | xgpu_drv/libxgpu.c:502-523 | the list of BARs is the strictly increasing enumeration of those with a length |
| XgpuDevice.AcquiresExactlyWhen | xgpu_drv/libxgpu.c:595-631 | what an open needs, mode by mode: in mode 0 or 3 MSI-X if capable, in mode 1, or 0 without MSI-X, MSI if capable, else a pin |
| XgpuDevice.SecondOfTwo | xgpu_drv/libxgpu.c:502-534 | the second of two BARs is the configuration BAR exactly when BARs 0 and 1 are the only ones |
| XgpuDevice.HeldOncePassed | xgpu_drv/libxgpu.c:989-999 | after any opens of a device a region is held iff it has a length and one of them got past it |
| XgpuDevice.RefusedEverAfter | xgpu_drv/libxgpu.c:989-999 | if held regions are refused, no open gets past a region with a length after an earlier one did |
| XgpuDevice.OneOpenSucceeds | xgpu_drv/libxgpu.c:989-999 | if held regions are refused, a device with BAR 2 or 5 is opened successfully at most once, and no other open, before or after, got past that region |
| XgpuDevice.ReopensExactlyWhen | xgpu_drv/libxgpu.c:989-999 | after any opens of a device, an open that honours the regions held can succeed iff none of them got past a region with a length |
| XgpuDevice.LinesSinceOpen | xgpu_drv/libxgpu.c:225-361 | a line of an open device, however often its handlers ran, is flagged iff its interrupt fired since, and was woken exactly once then |
| XgpuDevice.XgpuDev.constructor | xgpu_drv/libxgpu.c:199-223 | a zeroed device with all BAR indices -1, offline, no line flagged and no interrupt handled |
| XgpuDevice.XgpuDev.UnmapBars | xgpu_drv/libxgpu.c:368-379 | no BAR stays mapped |
| XgpuDevice.XgpuDev.MapSingleBar | xgpu_drv/libxgpu.c:381-417 | 0 iff the BAR is absent, negative iff mapping fails, else the length clamped to INT_MAX, for every 64-bit length |
| XgpuDevice.XgpuDev.IdentifyBars | xgpu_drv/libxgpu.c:419-487 | which BARs are user and bypass, by count and position |
| XgpuDevice.XgpuDev.MapBars | xgpu_drv/libxgpu.c:494-547 | exactly the BARs with a length are mapped, or none; user index -1, bypass the second of exactly two, which is the configuration BAR iff only BARs 0 and 1 exist |
| XgpuDevice.XgpuDev.RequestRegions | xgpu_drv/libxgpu.c:964-1000 | which of regions 2 and 5 are held afterwards, on success and failure; one without length is granted and not held |
| XgpuDevice.XgpuDev.DisableMsiMsix | xgpu_drv/libxgpu.c:584-593 | MSI-X is switched off if flagged, else MSI if flagged |
| XgpuDevice.XgpuDev.EnableMsiMsix | xgpu_drv/libxgpu.c:595-631 | MSI-X in mode 0 or 3 if capable, else MSI in mode 0 or 1 if capable, flagged even when refused; a negative result leaves the mode off |
| XgpuDevice.XgpuDev.IrqMsixUserSetup | xgpu_drv/libxgpu.c:838-875 | exactly one interrupt for each slot, at its vector, or none at all |
| XgpuDevice.XgpuDev.PackWord | xgpu_drv/libxgpu.c:675-682 | the inner loop packs up to four numbers and advances the shared counter past them |
| XgpuDevice.XgpuDev.ProgIrqMsixUser | xgpu_drv/libxgpu.c:663-691 | exactly ceil(user_max/4) words are written: the vector numbers, or zeros when clearing |
| XgpuDevice.XgpuDev.IrqLegacySetup | xgpu_drv/libxgpu.c:891-930 | no pin, no interrupt; a pin above 1 is written to six registers |
| XgpuDevice.XgpuDev.IrqSetup | xgpu_drv/libxgpu.c:943-962 | the interrupts of the chosen mode, or none on failure |
| XgpuDevice.XgpuDev.IrqTeardown | xgpu_drv/libxgpu.c:932-941 | no interrupt stays registered; in MSI-X mode the vector words are zeroed |
| XgpuDevice.XgpuDev.AcquireInterrupts | xgpu_drv/libxgpu.c:1107-1135 | interrupt sources off, then mode and interrupts, or neither |
| XgpuDevice.XgpuDev.AcquireBars | xgpu_drv/libxgpu.c:1094-1139 | the same from mapping on: whatever fails, no mapping, interrupt or mode remains |
| XgpuDevice.XgpuDev.Acquire | xgpu_drv/libxgpu.c:1064-1145 | succeeds iff every outcome needed is good, then online, in the interrupt mode asked for and holding exactly what is recorded; else holds nothing but the granted regions; refused a region, it changes nothing else even on a device in use; registers are written iff the regions, mappings and DMA mask are granted, and both interrupt sources switched off then |
| XgpuDevice.XgpuDev.Release | xgpu_drv/libxgpu.c:1174-1188 | gives back everything but the regions |
| XgpuDevice.XgpuDev.UserIrqService | xgpu_drv/libxgpu.c:225-245 | the effect on one line |
| XgpuDevice.XgpuDev.Isr | xgpu_drv/libxgpu.c:252-342 | serves exactly the requested lines below user_max, clears fired channels, counts the interrupt and extends the run handled |
| XgpuDevice.XgpuDev.UserIrq | xgpu_drv/libxgpu.c:344-362 | serves the line of its slot and extends the run handled |
| XgpuDriver.IndicesIncrease | xgpu_drv/libxgpu.c:30-56 | under every interleaving of adds and removes indices increase along the list and a new one exceeds all |
| XgpuDriver.Driver.constructor | xgpu_drv/libxgpu.c:23 | an empty list, and the invariant of all devices holds |
| XgpuDriver.Driver.XdevListAdd | xgpu_drv/libxgpu.c:30-46 | appended, with index 0 or one more than the last |
| XgpuDriver.Driver.XdevListRemove | xgpu_drv/libxgpu.c:48-56 | the entry is taken out and the others keep their order |
| XgpuDriver.Driver.XdevFindByPdev | xgpu_drv/libxgpu.c:58-71 | the first entry on the device, or none |
| XgpuDriver.Driver.CheckDevHndl | xgpu_drv/libxgpu.c:73-90 | 0 iff the handle is the first entry on the device |
| XgpuDriver.Driver.XgpuDeviceOpen | xgpu_drv/libxgpu.c:1046-1151 | keeps the invariant of all devices; returns a handle iff all needed outcomes are good, then online, in the interrupt mode asked for, with no interrupt handled; else the list is as before and the device idle, or as it was if it had a handle |
| XgpuDriver.Driver.XgpuDeviceClose | xgpu_drv/libxgpu.c:1153-1192 | keeps the invariant; the live handle of the device, online or not, is removed and the device idle, any other call changes nothing |
| XgpuDriver.Driver.XgpuDeviceOffline | xgpu_drv/libxgpu.c:1194-1207 | keeps the invariant; marks the live handle of the device offline, any other call changes nothing |
| XgpuDriver.Driver.XgpuDeviceOnline | xgpu_drv/libxgpu.c:1209-1222 | keeps the invariant; clears the mark of the live handle, any other call changes nothing |
| XgpuDriver.Driver.LiveIsRefused | xgpu_drv/libxgpu.c:989-999 | in every reachable state a kernel that refuses held regions refuses one to a device with a handle, if BAR 2 or 5 exists |
| XgpuDriver.Driver.OneOpenEver | xgpu_drv/libxgpu.c:1046-1192 | in every reachable state the regions held are those all opens were granted, and if held regions were always refused and BAR 2 or 5 exists, at most one open of the device ever succeeded |
| XgpuDriver.Driver.CanStillOpen | xgpu_drv/libxgpu.c:989-999 | in every reachable state an open honouring the regions held can succeed iff no earlier open of the device got past a region with a length |
| XgpuDriver.ServedKeepsValid | xgpu_drv/libxgpu.c:225-361 | interrupt handlers and changes of the offline flag on a live device keep the invariant of all devices |

## Left out

- `usage`, `error`, `error_full`, `footer`, `parse_check` and `check`: help text, echoing of tokens and process exit.
- `demangle`, `readable_typename` and the stream-based `lexical_cast`: the cast of a reader is an arbitrary partial function.
- Argument vectors longer than an `int` can count, and the reading of `argv[0]` of an empty vector before the count is checked.
- Directory walking and configuration file reads: the set of existing paths and the configuration bytes are inputs.
- More than 2^31 `resourceN` files, and list indices or interrupt counts that overflow `int`.
- The pointer structure of the driver's linked list: it is a sequence the methods replace; locks make each list operation one step.
- The BAR array, interrupt slots and vector registers embedded in C structures: fields of sequence type, updated element by element.
- Memory allocation and freeing of the device structure, beyond the failure of allocation.
- PCI configuration writes that hold no resource: pending status, INTx enable, relaxed ordering, extended tags, read request size, bus mastering, DMA masks.
- `prog_irq_msix_channel` and the channel setup and teardown, whose bounds are fixed at 0 or whose code is compiled out.
- The second MSI and interrupt setup in `xgpu_mod.c`, the character device files, their tables and ioctls, and error recovery.
- XgpuDriver.Driver.XgpuDeviceOpen: does not model what the kernel does after a register write without BAR 1, nor a second open of a live device that is refused no region, because the driver core probes a device once until it is removed.
