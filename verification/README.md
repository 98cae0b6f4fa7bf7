# HorrorScope, modelled and proved

This project models the parts of the HorrorScope repository where the logic is hardest to get right,
and proves what they are for.

- **AES** (`toe-arduino/sketch_slowAes/aes.c`): the field and word arithmetic, the tables, the round
  transformations on the flat state array, the key schedule, the two ciphers, and how a fault in one
  byte spreads to the ciphertext, which is what `fi/plotLog.py` classifies.
- **Bootloaders over one flash memory**: the Printer-class Intel HEX loader, the DFU-class state
  machine, the CDC-class AVR109 commands, and the mass-storage virtual disk with its FAT12 table,
  its two files and the SCSI block commands.
- **Trace-set file** (`acq/Trace.py`): a tag-length-value header, appended records and a count that
  is rewritten in place.
- **Scope protocol**: the host library `acq/scope.py` and the firmware command loop as two processes
  over two byte channels, taking steps in any order.

## Layout

Each component has a module of values and functions that say what the code computes, one or more
modules of properties over all inputs or all runs, and a module with the code in its own form:
classes with fields, methods with loops, arrays changed in place, each proved equal to its functions.

| component | functions | properties | code |
|---|---|---|---|
| field and words | GaloisField, SBox, WordRing | the same | GaloisField.Gmult, WordRing.CoefMult |
| AES | AesSpec, KeySchedule | AesSpec, RoundBytes, RoundKeyOrder, FaultSpread, KeySchedule | AesCode, Grid |
| flash and EEPROM | Memory | PageProgramming | |
| Printer | HexLoader | HexImage, HexExit, HexGuard, HexStray, HexExtended | HexLoader.HexBootloader |
| DFU | DfuModel | DfuSecurity, DfuTransfer, DfuEeprom, DfuReports | DfuCode |
| CDC | CdcModel | CdcTransfer, CdcBytes, CdcFills | CdcCode |
| mass storage | Fat12, VirtualDisk, Scsi | Fat12, DiskFiles, HostView, Scsi, DragAndDrop, DirectoryMoves | MassStorageCode |
| trace set | TraceFormat | TraceRoundTrip | TraceSetCode |
| scope | ScopeProtocol | ScopeAgreement, ScopeTrace, ScopeGain | ScopeCode |

`dafny verify dfyconfig.toml` checks the whole project.

## Where the code is not what it promises

The model follows the code. Each of these has an exact condition in the table below.

- The Printer loader writes a page only when the address leaves it, so an image shorter than a page
  is erased and never written (HexImage.LoadsExactly).
- The Printer loader protects the bootloader by the address of the data, and erases the page that the
  last write left it at. A text leaves the boot section alone if and only if it takes no word while
  that page lies there (HexStray.BootKeptExactly; HexStray.SecondPassOverwrites is a text that fails).
- A record past the application section drops the page begun before it (HexGuard.BegunPageLost), and
  extended addresses are read with their bytes swapped (HexExtended.ExtendedExactly).
- The DFU loader spends one of the alignment bytes on the wait for the next packet
  (DfuReports.AlignmentExactly). It starts an application by a jump if and only if the first word of
  flash is blank, though its comment asks for an application to be present (DfuReports.StartConfirmed).
- The CDC set-address command promises to translate a sixteen-bit word address, and does so below
  0x4000 only (CdcTransfer.SetAddressExactly).
- The CDC commands that fill a word of the page buffer by bytes each write a whole word, so the high
  byte is lost (CdcBytes.WordFillExactly, CdcFills.FillsProgram).
- Updating an even FAT12 entry takes four bits of the following entry from the wrong byte
  (Fat12.UpdateEntryIsolated). The chains the device builds are right unless EEPROM.BIN ends right
  before FLASH.BIN at an even cluster (Fat12.ChainsReadBack).
- READ (10) and WRITE (10) cut the block address to sixteen bits before they compare it with the size
  of the disk (Scsi.BeyondTheDisk).
- addTrace checks the data size after it has written the title, and never checks the samples
  (TraceRoundTrip.FormKeptExactly). Header fields wider than their items are cut without notice
  (TraceRoundTrip.NewFileReadsBack).
- addTrace writes no samples of an unknown coding but counts the trace (TraceRoundTrip.FileOfAnyRun).
- The gain bits of the converter are added to and never cleared (ScopeGain.GainExactly).
- getSamples with a sample count of zero returns before the firmware has taken the command
  (ScopeAgreement.ZeroFetchLingers, ScopeAgreement.BetweenCalls).

## Assumptions about the hardware

Flash is erased and written by the page through a page buffer; programming clears bits only; the
buffer is blank after a page write and after the read-while-write section is enabled. A fill of the
buffer stores a whole word and ignores the lowest bit of its address; the last fill of a word counts. Accesses
outside a memory have no effect and read as 0xFF. An int has sixteen bits on the device, and a shift
out of it drops the bits shifted out. Numbers in trace files are little-endian.

## Model

| member | source | states |
|---|---|---|
| GaloisField.Gmult | toe-arduino/sketch_slowAes/aes.c:31-47 | the shift-and-reduce loop returns the product of its arguments in GF(2^8) |
| GaloisField.MulIsTheResidue | toe-arduino/sketch_slowAes/aes.c:26-47 | that product is the one polynomial of degree below eight congruent to the carry-less product modulo x^8 + x^4 + x^3 + x + 1 (FIPS 197 section 4.2) |
| GaloisField.MulCommutative | toe-arduino/sketch_slowAes/aes.c:31-47 | the product commutes |
| GaloisField.MulAssociative | toe-arduino/sketch_slowAes/aes.c:31-47 | the product associates |
| GaloisField.MulAddLeft | toe-arduino/sketch_slowAes/aes.c:14-47 | the product distributes over addition on the left |
| GaloisField.MulAddRight | toe-arduino/sketch_slowAes/aes.c:14-47 | the product distributes over addition on the right |
| GaloisField.MulOneLeft | toe-arduino/sketch_slowAes/aes.c:31-47 | one is neutral |
| GaloisField.ModulusIrreducible | toe-arduino/sketch_slowAes/aes.c:26-47 | every byte of degree one to seven leaves a nonzero, smaller remainder of the modulus, so nothing of lower degree divides it |
| GaloisField.InverseExists | toe-arduino/sketch_slowAes/aes.c:31-47 | every nonzero byte has a multiplicative inverse |
| GaloisField.NoZeroDivisors | toe-arduino/sketch_slowAes/aes.c:31-47 | a product is zero if and only if a factor is |
| GaloisField.AddLaws | toe-arduino/sketch_slowAes/aes.c:14-25 | addition and subtraction are the same self-inverse, commutative and associative operation |
| SBox.SubByteDefinition | toe-arduino/sketch_slowAes/aes.c:96-116 | each entry of the substitution table is the affine map of the multiplicative inverse of its index (zero for zero), for all 256 indices (FIPS 197 section 5.1.1) |
| SBox.InvSubByteDefinition | toe-arduino/sketch_slowAes/aes.c:118-138 | each entry of the inverse table is the multiplicative inverse of the inverse affine map of its index |
| SBox.AffineBijective | toe-arduino/sketch_slowAes/aes.c:96-138 | the two affine maps undo each other |
| SBox.InvSubSub | toe-arduino/sketch_slowAes/aes.c:96-138 | the inverse table undoes the table |
| SBox.SubInvSub | toe-arduino/sketch_slowAes/aes.c:96-138 | the table undoes the inverse table |
| WordRing.CoefAdd | toe-arduino/sketch_slowAes/aes.c:53-59 | the in-place word sum is the sum of polynomials over GF(2^8) |
| WordRing.CoefMult | toe-arduino/sketch_slowAes/aes.c:65-71 | the in-place word product is the product modulo x^4 + 1 |
| WordRing.MultiplyIsReduced | toe-arduino/sketch_slowAes/aes.c:61-71 | the product is the full product of two polynomials of degree three with its high coefficients folded back (FIPS 197 section 4.3) |
| WordRing.MultiplyAssociative | toe-arduino/sketch_slowAes/aes.c:65-71 | word multiplication associates, for all words |
| WordRing.MixUnits | toe-arduino/sketch_slowAes/aes.c:185-223 | the two constant polynomials multiply to one, in either order |
| WordRing.MixUndone | toe-arduino/sketch_slowAes/aes.c:185-223 | multiplying by either constant undoes multiplying by the other, on every word |
| WordRing.MixMatrix | toe-arduino/sketch_slowAes/aes.c:185-201 | multiplying by the mixing constant is the matrix product of FIPS 197 section 5.1.3 |
| AesSpec.SubBytesUndone | toe-arduino/sketch_slowAes/aes.c:278-308 | substitution and inverse substitution undo each other on every state |
| AesSpec.RotateIndex | toe-arduino/sketch_slowAes/aes.c:229-248 | shifting row i moves the byte at column (c + i) mod Nb to column c, for every number of columns |
| AesSpec.ShiftRowsUndone | toe-arduino/sketch_slowAes/aes.c:229-271 | the row shift and its inverse undo each other, for every number of columns |
| AesSpec.MultiplyColumnsUndone | toe-arduino/sketch_slowAes/aes.c:185-223 | the column mix and its inverse undo each other on every state |
| AesSpec.AddRoundKeyUndone | toe-arduino/sketch_slowAes/aes.c:168-178 | adding a round key twice gives the state back |
| AesSpec.LoadStore | toe-arduino/sketch_slowAes/aes.c:383-412 | storing a state column by column and loading it again gives it back |
| AesSpec.StoreLoad | toe-arduino/sketch_slowAes/aes.c:383-412 | loading a block column by column and storing it again gives it back |
| AesSpec.BackToUndoes | toe-arduino/sketch_slowAes/aes.c:396-432 | the inverse rounds lead back through the states of the forward rounds |
| AesSpec.AfterRoundRedoes | toe-arduino/sketch_slowAes/aes.c:396-432 | the forward rounds lead through the states of the inverse rounds again |
| AesSpec.InvCipherCipher | toe-arduino/sketch_slowAes/aes.c:383-443 | decryption undoes encryption for every block, key schedule, number of columns and number of rounds |
| AesSpec.CipherInvCipher | toe-arduino/sketch_slowAes/aes.c:383-443 | encryption undoes decryption for every block, key schedule, number of columns and number of rounds |
| AesSpec.AddRoundKeyAt | toe-arduino/sketch_slowAes/aes.c:172-177 | byte (i, c) of the state takes byte 4c + i of the round key |
| RoundBytes.StartInBytes | toe-arduino/sketch_slowAes/aes.c:388-394 | before the first round, byte (i, c) is byte 4c + i of the block plus byte 4c + i of the schedule |
| RoundBytes.ShiftRowsAt | toe-arduino/sketch_slowAes/aes.c:229-248 | after the row shift, byte (i, c) is byte (i, (c + i) mod Nb) from before, for every number of columns |
| RoundBytes.RoundInBytes | toe-arduino/sketch_slowAes/aes.c:396-401 | after round r, byte (i, c) is row i of the FIPS 197 matrix applied to the four substituted bytes at (j, (c + j) mod Nb), plus byte 4 Nb r + 4c + i of the schedule |
| RoundBytes.FinalInBytes | toe-arduino/sketch_slowAes/aes.c:403-411 | byte 4c + i of the ciphertext is the substituted byte at (i, (c + i) mod Nb) plus byte 4 Nb Nr + 4c + i of the schedule |
| RoundKeyOrder.CipherConsumes | toe-arduino/sketch_slowAes/aes.c:383-412 | the cipher is the one that takes each round key off the front of what is left of the schedule, for every block, schedule and number of rounds |
| RoundKeyOrder.FirstKeyWhitens | toe-arduino/sketch_slowAes/aes.c:394-394 | adding any bytes both to the block and to the first Nb words of the schedule leaves the ciphertext as it was |
| RoundKeyOrder.LastKeyWhitens | toe-arduino/sketch_slowAes/aes.c:405-405 | adding any bytes to the last Nb words of the schedule adds them to the ciphertext |
| FaultSpread.DiffBytesCounts | fi/plotLog.py:14-16 | the loop sum of differing bytes is the number of differing positions |
| FaultSpread.CipherFinishes | toe-arduino/sketch_slowAes/aes.c:383-412 | the cipher is its first rounds followed by the rest, for every round in between |
| FaultSpread.MixDiffuses | toe-arduino/sketch_slowAes/aes.c:185-201 | two columns that differ in one byte differ in all four bytes after the mix |
| FaultSpread.LateFault | fi/plotLog.py:45-52 | one byte changed at entry to the final round changes exactly one byte of the ciphertext, for every key |
| FaultSpread.FaultBeforeLastMix | fi/plotLog.py:45-52 | one byte changed at entry to round Nr - 1 changes exactly four bytes of the ciphertext, for every key |
| FaultSpread.EarlyFault | fi/plotLog.py:45-52 | with four columns, one byte changed at entry to round Nr - 2 changes all sixteen bytes of the ciphertext, for every key |
| FaultSpread.FinalDiffer | toe-arduino/sketch_slowAes/aes.c:403-405 | the bytes that differ after the final round are the shifted images of those that differed before it |
| KeySchedule.WindowBackward | toe-arduino/sketch_slowAes/aes.c:345-381 | two schedules that agree on Nk consecutive words agree on all earlier words |
| KeySchedule.WindowDeterminesKey | toe-arduino/sketch_slowAes/aes.c:345-381 | two keys whose schedules agree on any Nk consecutive words are equal, and so are their whole schedules |
| KeySchedule.TempBytes | toe-arduino/sketch_slowAes/aes.c:359-374 | byte j of the temporary word: substituted and taken from the next place, with the round constant at byte zero, at multiples of Nk; substituted in place at the fourth word for Nk above six; plain elsewhere |
| KeySchedule.ScheduleRecurs | toe-arduino/sketch_slowAes/aes.c:358-380 | the specified schedule obeys the byte recurrence of FIPS 197 section 5.2, stated without rotations, word substitutions or temporaries |
| KeySchedule.PowersMultiply | toe-arduino/sketch_slowAes/aes.c:144-160 | the round constants multiply as powers of x, from x itself on |
| KeySchedule.ExampleKey | toe-arduino/sketch_slowAes/aes.c:345-381 | the first derived word of the key of FIPS 197 appendix A.1 is a0fafe17 |
| AesCode.Aes.Rcon | toe-arduino/sketch_slowAes/aes.c:144-160 | the first byte of the shared buffer becomes x^(i-1) for i above zero and stays for i = 0, whatever earlier calls left there; the other bytes stay |
| AesCode.Aes.AddRoundKeyInPlace | toe-arduino/sketch_slowAes/aes.c:168-178 | byte Nb i + c of the state array is its old value plus byte 4 Nb r + 4c + i of the schedule array, for all i and c; so the state becomes the specified round-key sum |
| AesCode.Aes.MultiplyColumnsInPlace | toe-arduino/sketch_slowAes/aes.c:185-223 | every column of the state array is multiplied by the given word |
| AesCode.Aes.MixColumns | toe-arduino/sketch_slowAes/aes.c:185-201 | the state array becomes the mixed state |
| AesCode.Aes.InvMixColumns | toe-arduino/sketch_slowAes/aes.c:207-223 | the state array becomes the inversely mixed state |
| AesCode.Aes.SubBytesInPlace | toe-arduino/sketch_slowAes/aes.c:278-290 | every byte of the state array is replaced by its table entry |
| AesCode.Aes.InvSubBytesInPlace | toe-arduino/sketch_slowAes/aes.c:296-308 | every byte of the state array is replaced by its inverse table entry |
| AesCode.Aes.StepLeftInPlace | toe-arduino/sketch_slowAes/aes.c:238-244 | one turn of the inner loop rotates one row by one position |
| AesCode.Aes.ShiftRowsInPlace | toe-arduino/sketch_slowAes/aes.c:229-248 | repeated one-step shifts rotate row i left by i positions, for every number of columns |
| AesCode.Aes.StepRightInPlace | toe-arduino/sketch_slowAes/aes.c:261-267 | one turn of the inner loop rotates one row back by one position |
| AesCode.Aes.InvShiftRowsInPlace | toe-arduino/sketch_slowAes/aes.c:254-271 | repeated one-step shifts rotate row i right by i positions |
| AesCode.Aes.SubWordInPlace | toe-arduino/sketch_slowAes/aes.c:315-322 | the four bytes of the word are replaced by their table entries |
| AesCode.Aes.RotWordInPlace | toe-arduino/sketch_slowAes/aes.c:328-340 | the four bytes of the word are rotated left by one |
| AesCode.Aes.TempInPlace | toe-arduino/sketch_slowAes/aes.c:359-374 | the temporary word of position i becomes the specified one, whose bytes KeySchedule.TempBytes gives |
| AesCode.Aes.KeyExpansion | toe-arduino/sketch_slowAes/aes.c:345-381 | the first Nk words of the array are the key, and every byte of every later word obeys the byte recurrence of FIPS 197 section 5.2, for every Nk |
| AesCode.Aes.LoadInto | toe-arduino/sketch_slowAes/aes.c:388-392 | the block is read into the state array column by column |
| AesCode.Aes.StoreFrom | toe-arduino/sketch_slowAes/aes.c:407-411 | the state array is written to the block column by column |
| AesCode.Aes.CipherRound | toe-arduino/sketch_slowAes/aes.c:396-401 | one turn of the loop is one full round |
| AesCode.Aes.InvCipherRound | toe-arduino/sketch_slowAes/aes.c:427-432 | one turn of the loop is one full inverse round |
| AesCode.Aes.EncryptBlock | toe-arduino/sketch_slowAes/aes.c:383-412 | the flat-array code computes the state-matrix cipher of FIPS 197 section 5.1, whose rounds RoundBytes gives byte by byte and whose use of the schedule RoundKeyOrder gives |
| AesCode.Aes.DecryptBlock | toe-arduino/sketch_slowAes/aes.c:414-443 | the flat-array code computes the inverse cipher of FIPS 197 section 5.3 |
| AesCode.Aes.RoundTrip | toe-arduino/sketch_slowAes/aes.c:383-443 | encrypting and then decrypting a block array leaves it as it was |
| Memory.Flash.Erase | scope/lufa-LUFA-170418/Bootloaders/MassStorage/BootloaderAPI.c:38-43 | exactly the page of the address becomes blank |
| Memory.Flash.Fill | scope/lufa-LUFA-170418/Bootloaders/MassStorage/BootloaderAPI.c:52-55 | exactly the addressed word of the page buffer is replaced |
| Memory.Flash.Write | scope/lufa-LUFA-170418/Bootloaders/MassStorage/BootloaderAPI.c:45-50 | exactly the page of the address is programmed, clearing bits only, and the page buffer becomes blank |
| Memory.AndBlank | scope/lufa-LUFA-170418/Bootloaders/MassStorage/BootloaderAPI.c:45-50 | programming an erased byte stores it, and programming ones leaves a byte alone |
| PageProgramming.FillStep | scope/lufa-LUFA-170418/Bootloaders/Printer/BootloaderPrinter.c:318-336 | the next word of a run of data joins the page buffer, everything programmed so far stays |
| PageProgramming.WriteFull | scope/lufa-LUFA-170418/Bootloaders/Printer/BootloaderPrinter.c:214-231 | writing a full erased page completes it and blanks the buffer |
| PageProgramming.WriteLast | scope/lufa-LUFA-170418/Bootloaders/DFU/BootloaderDFU.c:361-385 | writing the last page, full or not, completes the run: data in place, rest of the page blank, all else unchanged |
| HexLoader.HexToDecimal | scope/lufa-LUFA-170418/Bootloaders/Printer/BootloaderPrinter.c:198-206 | a result other than -1 is the value of the upper-case hexadecimal digit that was read |
| HexLoader.HexDigitRead | scope/lufa-LUFA-170418/Bootloaders/Printer/BootloaderPrinter.c:198-206 | upper-case digits of every value are read as that value |
| HexLoader.RunConcat | scope/lufa-LUFA-170418/Bootloaders/Printer/BootloaderPrinter.c:388-397 | feeding two texts in turn is feeding their concatenation |
| HexLoader.RunDecodes | scope/lufa-LUFA-170418/Bootloaders/Printer/BootloaderPrinter.c:239-273 | within a line the parser sees the bytes that the hexadecimal digits spell, whatever other characters stand between them |
| HexLoader.HexBootloader.constructor | scope/lufa-LUFA-170418/Bootloaders/Printer/BootloaderPrinter.c:70-106 | the parser starts waiting for a line with nothing programmed |
| HexLoader.HexBootloader.FlushPage | scope/lufa-LUFA-170418/Bootloaders/Printer/BootloaderPrinter.c:214-231 | a dirty page is written exactly when the address has left it; the new state is the specified one |
| HexLoader.HexBootloader.ProgramDataWord | scope/lufa-LUFA-170418/Bootloaders/Printer/BootloaderPrinter.c:318-336 | a data word erases a clean page, fills its place in the buffer and moves on; the new state is the specified one |
| HexLoader.HexBootloader.ReadDataByte | scope/lufa-LUFA-170418/Bootloaders/Printer/BootloaderPrinter.c:296-351 | a data byte at or past the boot section ends the record and drops the page; any other updates the record fields by record type; the new state is the specified one, whose guard HexGuard and HexStray pin down |
| HexLoader.HexBootloader.DispatchByte | scope/lufa-LUFA-170418/Bootloaders/Printer/BootloaderPrinter.c:274-370 | a decoded byte is taken by the parser phase; the new state is the specified one |
| HexLoader.HexBootloader.ParseIntelHexByte | scope/lufa-LUFA-170418/Bootloaders/Printer/BootloaderPrinter.c:239-371 | one character takes the parser to the specified state |
| HexLoader.HexBootloader.Receive | scope/lufa-LUFA-170418/Bootloaders/Printer/BootloaderPrinter.c:384-404 | a whole text is taken character by character |
| HexImage.ProgramWordLoads | scope/lufa-LUFA-170418/Bootloaders/Printer/BootloaderPrinter.c:318-336 | a word of the image that comes in order extends the part of the image taken in |
| HexImage.RecordRuns | scope/lufa-LUFA-170418/Bootloaders/Printer/BootloaderPrinter.c:274-370 | a data record with its address, bytes and checksum extends the part of the image taken in by its data |
| HexImage.HexTextSpells | scope/lufa-LUFA-170418/Bootloaders/Printer/BootloaderPrinter.c:239-273 | the hexadecimal text of a record spells its bytes |
| HexImage.FileLoadsImage | scope/lufa-LUFA-170418/Bootloaders/Printer/BootloaderPrinter.c:214-371 | any in-order even-length records of an even-length image from address zero, with any other characters between digits, and an end-of-file record: the loader stops, and an image of at least a page is programmed exactly |
| HexImage.ShortImageLost | scope/lufa-LUFA-170418/Bootloaders/Printer/BootloaderPrinter.c:214-231 | an image shorter than a page is never written: its place is only erased |
| HexImage.LoadsExactly | scope/lufa-LUFA-170418/Bootloaders/Printer/BootloaderPrinter.c:214-371 | flash ends up equal to the image if and only if the image fills a page or is blank |
| HexExit.StepTracks | scope/lufa-LUFA-170418/Bootloaders/Printer/BootloaderPrinter.c:239-371 | each character keeps the parser in step with the digits since the last colon, and stops it if and only if it completes an end-of-file record with the right checksum |
| HexExit.RunTracks | scope/lufa-LUFA-170418/Bootloaders/Printer/BootloaderPrinter.c:239-371 | the parser is in step with the text after every text |
| HexExit.DataRemPositive | scope/lufa-LUFA-170418/Bootloaders/Printer/BootloaderPrinter.c:296-351 | in every reachable state that reads data at least one byte remains, so the count never underflows |
| HexExit.StopsExactlyAtEndOfFile | scope/lufa-LUFA-170418/Bootloaders/Printer/BootloaderPrinter.c:353-371 | over every text and next character, the loader stops if and only if the bytes since the last colon form a complete type-1 record body that sums with the current byte to zero modulo 256 |
| HexGuard.RecordShut | scope/lufa-LUFA-170418/Bootloaders/Printer/BootloaderPrinter.c:296-306 | a data record at or past the boot section leaves flash alone and the loader running |
| HexGuard.LongImageStopsAtBoot | scope/lufa-LUFA-170418/Bootloaders/Printer/BootloaderPrinter.c:239-371 | any in-order file of an image that runs into the boot section: the application section becomes the front of the image, the boot section is as it was, and the loader stops |
| HexGuard.RecordAbandons | scope/lufa-LUFA-170418/Bootloaders/Printer/BootloaderPrinter.c:300-306 | a data record at or past the boot section drops whatever page was begun, in any state of the loader |
| HexGuard.BegunPageLost | scope/lufa-LUFA-170418/Bootloaders/Printer/BootloaderPrinter.c:300-371 | and an end-of-file record after it writes nothing: the words of the begun page are lost |
| HexStray.StraysWipe | scope/lufa-LUFA-170418/Bootloaders/Printer/BootloaderPrinter.c:318-328 | after a word taken while the page to be erased lies in the boot section, two devices that differ only in what flash holds have the same first byte in that page for good, so what stood there is lost |
| HexStray.BootKeptExactly | scope/lufa-LUFA-170418/Bootloaders/Printer/BootloaderPrinter.c:239-371 | over every text: the boot section stays as it was, whatever flash holds, if and only if no word is taken below it while the page to be erased lies in it |
| HexStray.SecondPassOverwrites | scope/lufa-LUFA-170418/Bootloaders/Printer/BootloaderPrinter.c:318-336 | a text that fails: an image that fills the application section, then a record at address zero, puts that record's word over the first word of the bootloader |
| HexExtended.ExtendedTaken | scope/lufa-LUFA-170418/Bootloaders/Printer/BootloaderPrinter.c:338-346 | an extended segment or linear address record sets the base from its two bytes read low byte first, and changes nothing else |
| HexExtended.ExtendedExactly | scope/lufa-LUFA-170418/Bootloaders/Printer/BootloaderPrinter.c:316-346 | the base is the address that Intel HEX gives the record if and only if its two bytes are equal |
| DfuSecurity.ChipEraseBlanks | scope/lufa-LUFA-170418/Bootloaders/DFU/BootloaderDFU.c:790-804 | the erase loop leaves everything below the boot section blank and the rest as it was |
| DfuSecurity.SecureRequest | scope/lufa-LUFA-170418/Bootloaders/DFU/BootloaderDFU.c:250-578 | one request in secure mode leaves memory untouched, or is the erase and leaves the application section blank |
| DfuSecurity.SecureRun | scope/lufa-LUFA-170418/Bootloaders/DFU/BootloaderDFU.c:250-578 | over every run of requests that ends in secure mode, flash, EEPROM and page buffer are untouched and no transfer state was entered |
| DfuSecurity.OpeningErases | scope/lufa-LUFA-170418/Bootloaders/DFU/BootloaderDFU.c:611-633 | the request that ends secure mode leaves the whole application section blank, in every run |
| DfuSecurity.SecureRequestBlind | scope/lufa-LUFA-170418/Bootloaders/DFU/BootloaderDFU.c:250-578 | one request in secure mode sends the same bytes whatever the memories hold |
| DfuSecurity.SecureRunBlind | scope/lufa-LUFA-170418/Bootloaders/DFU/BootloaderDFU.c:250-578 | two devices that differ only in what their memories hold send the same bytes over every run up to the end of secure mode |
| DfuTransfer.FirstUsedLeast | scope/lufa-LUFA-170418/Bootloaders/DFU/BootloaderDFU.c:720-741 | the scan returns the first address that is not blank, or the end |
| DfuTransfer.BlankCheckExact | scope/lufa-LUFA-170418/Bootloaders/DFU/BootloaderDFU.c:718-744 | the check fails if and only if some application byte is not blank, and the page and address registers then recombine to the least such address |
| DfuTransfer.EraseThenCheck | scope/lufa-LUFA-170418/Bootloaders/DFU/BootloaderDFU.c:718-809 | with a blank page buffer, a blank check after a chip erase never fails |
| DfuTransfer.DownloadPrograms | scope/lufa-LUFA-170418/Bootloaders/DFU/BootloaderDFU.c:327-385 | the word loop programs exactly the words the host supplies, page by page, in packets of any even size |
| DfuTransfer.UploadReads | scope/lufa-LUFA-170418/Bootloaders/DFU/BootloaderDFU.c:448-486 | the word loop sends exactly the words of the range |
| DfuTransfer.DownloadRequest | scope/lufa-LUFA-170418/Bootloaders/DFU/BootloaderDFU.c:267-419 | a whole download request programs the range, leaves other pages and the EEPROM alone, and ends with a blank buffer and readable memory |
| DfuTransfer.ReadRequest | scope/lufa-LUFA-170418/Bootloaders/DFU/BootloaderDFU.c:707-717 | a read command prepares the upload of its range |
| DfuTransfer.UploadRequest | scope/lufa-LUFA-170418/Bootloaders/DFU/BootloaderDFU.c:420-518 | the upload request sends the bytes of the range |
| DfuTransfer.DownloadUploadRoundTrip | scope/lufa-LUFA-170418/Bootloaders/DFU/BootloaderDFU.c:267-518 | a download, a read command and an upload return the words that were downloaded |
| DfuEeprom.DownloadStores | scope/lufa-LUFA-170418/Bootloaders/DFU/BootloaderDFU.c:386-408 | the byte loop stores exactly what the host sends at consecutive EEPROM addresses, in packets of any size |
| DfuEeprom.UploadLoads | scope/lufa-LUFA-170418/Bootloaders/DFU/BootloaderDFU.c:487-512 | the byte loop sends exactly the bytes of the range, however they fall into packets |
| DfuEeprom.EepromDownloadRequest | scope/lufa-LUFA-170418/Bootloaders/DFU/BootloaderDFU.c:267-419 | a whole download request to EEPROM replaces its range, changes no other memory, and stays open behind the range |
| DfuEeprom.EepromUploadRequest | scope/lufa-LUFA-170418/Bootloaders/DFU/BootloaderDFU.c:420-518 | a read command and an upload send the EEPROM bytes of the range and leave the device idle behind it |
| DfuEeprom.EepromRoundTrip | scope/lufa-LUFA-170418/Bootloaders/DFU/BootloaderDFU.c:267-518 | a download to EEPROM, a read command and an upload return the bytes that were downloaded |
| DfuReports.BlankCheckReported | scope/lufa-LUFA-170418/Bootloaders/DFU/BootloaderDFU.c:519-544 | after a blank-check download from rest, GETSTATUS answers 5,0,0,0,10,0 if and only if some application byte is not blank, and 0,0,0,0,2,0 otherwise |
| DfuReports.UsedAddressReported | scope/lufa-LUFA-170418/Bootloaders/DFU/BootloaderDFU.c:429-442 | UPLOAD then answers the low and the high byte of the least address that is not blank |
| DfuReports.RefusalReported | scope/lufa-LUFA-170418/Bootloaders/DFU/BootloaderDFU.c:545-576 | after a refused command in secure mode GETSTATUS answers 3,0,0,0,10,0; CLRSTATUS makes the first byte 0 and leaves the fifth, ABORT makes the fifth 2 |
| DfuReports.Reports | scope/lufa-LUFA-170418/Bootloaders/DFU/BootloaderDFU.c:519-568 | GETSTATUS and GETSTATE answer status and state in the numbers of the class, and change nothing |
| DfuReports.ReadAnswered | scope/lufa-LUFA-170418/Bootloaders/DFU/BootloaderDFU.c:816-851 | a read command and an UPLOAD answer the byte of each index: version and identification, 58 hex and the signature; in secure mode too |
| DfuReports.ReadRefused | scope/lufa-LUFA-170418/Bootloaders/DFU/BootloaderDFU.c:853-858 | for every other index of the two selectors GETSTATUS answers 8,0,0,0,10,0 |
| DfuReports.PagedDownload | scope/lufa-LUFA-170418/Bootloaders/DFU/BootloaderDFU.c:648-650 | a page command followed by a download programs the data at page * 65536 + first |
| DfuReports.UploadFinishes | scope/lufa-LUFA-170418/Bootloaders/DFU/BootloaderDFU.c:484-513 | an upload that the host collects whole leaves the device idle at the end address, with flash as it was |
| DfuReports.DownloadCloses | scope/lufa-LUFA-170418/Bootloaders/DFU/BootloaderDFU.c:305-312 | after its data a download reports state 5 at the end address, and a download request without data brings state 2 |
| DfuReports.AlignmentExactly | scope/lufa-LUFA-170418/Bootloaders/DFU/BootloaderDFU.c:585-605 | with n alignment bytes after the fillers, the firmware stage starts n bytes into the next packet if and only if n is zero; else one byte too early |
| DfuReports.DownloadWithoutData | scope/lufa-LUFA-170418/Bootloaders/DFU/BootloaderDFU.c:676-702 | a download request with no data packets erases the first page of its range and stays open at its start |
| DfuReports.StartConfirmed | scope/lufa-LUFA-170418/Bootloaders/DFU/BootloaderDFU.c:750-788 | a start command and the empty download that confirms it: a start by reset arms the watchdog; any other ends the bootloader if and only if the first word of flash is blank; memory is unchanged |
| DfuReports.JumpAddress | scope/lufa-LUFA-170418/Bootloaders/DFU/BootloaderDFU.c:757-771 | the jump address is taken from the fifth and sixth byte of the packet if and only if the request announces more or fewer than six bytes |
| DfuReports.ForeignIgnored | scope/lufa-LUFA-170418/Bootloaders/DFU/BootloaderDFU.c:252-257 | a request that is not of the class might as well not have been made: every run ends and answers alike without it |
| DfuCode.DfuDevice.constructor | scope/lufa-LUFA-170418/Bootloaders/DFU/BootloaderDFU.c:39-93 | the device starts idle, without error, and secure if so configured |
| DfuCode.DfuDevice.DownloadFlashWords | scope/lufa-LUFA-170418/Bootloaders/DFU/BootloaderDFU.c:325-385 | the in-place loop leaves the specified flash, address and endpoint |
| DfuCode.DfuDevice.DownloadEepromBytes | scope/lufa-LUFA-170418/Bootloaders/DFU/BootloaderDFU.c:386-408 | the in-place loop leaves the specified EEPROM, address and endpoint |
| DfuCode.DfuDevice.UploadFlashWords | scope/lufa-LUFA-170418/Bootloaders/DFU/BootloaderDFU.c:448-486 | the in-place loop sends the specified bytes and leaves the specified address |
| DfuCode.DfuDevice.UploadEepromBytes | scope/lufa-LUFA-170418/Bootloaders/DFU/BootloaderDFU.c:487-512 | the in-place loop sends the specified bytes and leaves the specified address |
| DfuCode.DfuDevice.EraseChip | scope/lufa-LUFA-170418/Bootloaders/DFU/BootloaderDFU.c:792-804 | the in-place loop leaves the specified flash |
| DfuCode.DfuDevice.BlankCheck | scope/lufa-LUFA-170418/Bootloaders/DFU/BootloaderDFU.c:718-744 | the in-place scan leaves the specified state, status and address registers |
| DfuCode.DfuDevice.LoadStartEndAddresses | scope/lufa-LUFA-170418/Bootloaders/DFU/BootloaderDFU.c:659-671 | the two addresses are the big-endian words of the command |
| DfuCode.DfuDevice.ProcessMemProgCommand | scope/lufa-LUFA-170418/Bootloaders/DFU/BootloaderDFU.c:676-702 | a programming command leaves the specified state |
| DfuCode.DfuDevice.ProcessMemReadCommand | scope/lufa-LUFA-170418/Bootloaders/DFU/BootloaderDFU.c:707-745 | a reading or blank-check command leaves the specified state |
| DfuCode.DfuDevice.ProcessWriteCommand | scope/lufa-LUFA-170418/Bootloaders/DFU/BootloaderDFU.c:750-811 | a write command leaves the specified state |
| DfuCode.DfuDevice.ProcessReadCommand | scope/lufa-LUFA-170418/Bootloaders/DFU/BootloaderDFU.c:816-859 | a read command leaves the specified response byte |
| DfuCode.DfuDevice.ProcessBootloaderCommand | scope/lufa-LUFA-170418/Bootloaders/DFU/BootloaderDFU.c:611-654 | a command is refused in secure mode or dispatched; the new state is the specified one |
| DfuCode.DfuDevice.LoadSentCommand | scope/lufa-LUFA-170418/Bootloaders/DFU/BootloaderDFU.c:281-303 | the first bytes of the packet become the pending command |
| DfuCode.DfuDevice.ReceiveFirmwareStage | scope/lufa-LUFA-170418/Bootloaders/DFU/BootloaderDFU.c:309-417 | the firmware stage of a download leaves the specified state |
| DfuCode.DfuDevice.HandleDnloadRequest | scope/lufa-LUFA-170418/Bootloaders/DFU/BootloaderDFU.c:267-419 | a download request leaves the specified state |
| DfuCode.DfuDevice.HandleUploadRequest | scope/lufa-LUFA-170418/Bootloaders/DFU/BootloaderDFU.c:420-518 | an upload request leaves the specified state and sends the specified bytes |
| DfuCode.DfuDevice.ControlRequest | scope/lufa-LUFA-170418/Bootloaders/DFU/BootloaderDFU.c:250-578 | every control request leaves the specified state and sends the specified bytes, GETSTATUS those that DfuReports states |
| CdcModel.Task | scope/lufa-LUFA-170418/Bootloaders/CDC/BootloaderCDC.c:441-638 | whatever command comes, the address counter stays an even 32-bit number and the flash keeps its shape |
| CdcModel.Tasks | scope/lufa-LUFA-170418/Bootloaders/CDC/BootloaderCDC.c:441-638 | the address counter is even after any number of commands |
| CdcTransfer.SetAddress | scope/lufa-LUFA-170418/Bootloaders/CDC/BootloaderCDC.c:484-492 | below word address 0x4000 the byte address is twice the word address |
| CdcTransfer.SetAddressExactly | scope/lufa-LUFA-170418/Bootloaders/CDC/BootloaderCDC.c:484-492 | over all sixteen-bit word addresses, the byte address is twice the word address if and only if the word address is below 0x4000 |
| CdcTransfer.ReadFlashGives | scope/lufa-LUFA-170418/Bootloaders/CDC/BootloaderCDC.c:303-319 | the toggling loop sends consecutive bytes of flash, from either byte of a word |
| CdcTransfer.WriteFlashFills | scope/lufa-LUFA-170418/Bootloaders/CDC/BootloaderCDC.c:340-360 | the toggling loop puts consecutive words in the page buffer |
| CdcTransfer.BlockWritten | scope/lufa-LUFA-170418/Bootloaders/CDC/BootloaderCDC.c:332-381 | a block write of a page or less erases, fills and writes that page and advances the address past it |
| CdcTransfer.BlocksWritten | scope/lufa-LUFA-170418/Bootloaders/CDC/BootloaderCDC.c:332-381 | consecutive block writes program a run of pages, each from the address where the last ended |
| CdcTransfer.FlashRead | scope/lufa-LUFA-170418/Bootloaders/CDC/BootloaderCDC.c:297-329 | a block read answers with the bytes at the address |
| CdcTransfer.FlashRoundTrip | scope/lufa-LUFA-170418/Bootloaders/CDC/BootloaderCDC.c:276-383 | set-address, page-sized block writes of any even-length image, set-address and a block read return the image; it is programmed exactly and all else is unchanged |
| CdcTransfer.WriteEepromGives | scope/lufa-LUFA-170418/Bootloaders/CDC/BootloaderCDC.c:340-368 | the byte loop replaces consecutive EEPROM bytes |
| CdcTransfer.ReadEepromGives | scope/lufa-LUFA-170418/Bootloaders/CDC/BootloaderCDC.c:303-328 | the byte loop sends consecutive EEPROM bytes |
| CdcTransfer.EepromRoundTrip | scope/lufa-LUFA-170418/Bootloaders/CDC/BootloaderCDC.c:276-383 | set-address, a block write, set-address and a block read return the bytes, for every EEPROM block; nothing else changes |
| CdcBytes.ByteRoundTrip | scope/lufa-LUFA-170418/Bootloaders/CDC/BootloaderCDC.c:614-632 | bytes written to EEPROM one command each are read back one command each |
| CdcBytes.WordRead | scope/lufa-LUFA-170418/Bootloaders/CDC/BootloaderCDC.c:601-611 | the word command answers with the word at the address, high byte first |
| CdcBytes.WordFillExactly | scope/lufa-LUFA-170418/Bootloaders/CDC/BootloaderCDC.c:571-589 | filling a word of the page buffer by its high and then its low byte makes the word meant if and only if its high byte is zero |
| CdcBytes.EraseBlanksApplication | scope/lufa-LUFA-170418/Bootloaders/CDC/BootloaderCDC.c:515-528 | with a blank page buffer the erase command blanks the application section and leaves the bootloader and the EEPROM alone |
| CdcFills.ChipAnswered | scope/lufa-LUFA-170418/Bootloaders/CDC/BootloaderCDC.c:509-554 | the signature goes out as bytes three, two, one, and each fuse query answers its own fuse |
| CdcFills.BlockSizeAnnounced | scope/lufa-LUFA-170418/Bootloaders/CDC/BootloaderCDC.c:556-563 | the block query answers Y and the page size, high byte first |
| CdcFills.AnnouncedSizeWorks | scope/lufa-LUFA-170418/Bootloaders/CDC/BootloaderCDC.c:276-383 | a host that sizes its block writes by that answer gets the flash round trip |
| CdcFills.FillsProgram | scope/lufa-LUFA-170418/Bootloaders/CDC/BootloaderCDC.c:571-600 | fills of a blank page and the page-write command program the low bytes and zeros, and nothing else; flash holds the data if and only if every high byte is zero |
| CdcFills.IdentityAnswered | scope/lufa-LUFA-170418/Bootloaders/CDC/BootloaderCDC.c:468-508 | what the bootloader answers of itself, query by query |
| CdcFills.IdentifierAnswered | scope/lufa-LUFA-170418/Bootloaders/CDC/BootloaderCDC.c:498-503 | the identifier query answers the seven letters LUFACDC |
| CdcFills.OperandIgnored | scope/lufa-LUFA-170418/Bootloaders/CDC/BootloaderCDC.c:460-467 | the commands whose operand has no effect in the model take it with them and are acknowledged |
| CdcFills.OthersRefused | scope/lufa-LUFA-170418/Bootloaders/CDC/BootloaderCDC.c:634-638 | every byte that is no command gets a question mark and nothing else, the synchronisation byte no answer |
| CdcFills.ExitEnds | scope/lufa-LUFA-170418/Bootloaders/CDC/BootloaderCDC.c:453-459 | the bootloader ends if and only if the command is exit, which is acknowledged |
| CdcFills.UnknownMemoryRefused | scope/lufa-LUFA-170418/Bootloaders/CDC/BootloaderCDC.c:289-295 | a block command for any other memory type gets a question mark and moves nothing |
| CdcCode.CdcDevice.constructor | scope/lufa-LUFA-170418/Bootloaders/CDC/BootloaderCDC.c:47-57 | the device starts running at address zero |
| CdcCode.CdcDevice.Fetch | scope/lufa-LUFA-170418/Bootloaders/CDC/BootloaderCDC.c:391-410 | the next byte of the host, or zero once the host has gone |
| CdcCode.CdcDevice.ReadBlock | scope/lufa-LUFA-170418/Bootloaders/CDC/BootloaderCDC.c:303-328 | the in-place loop sends the specified bytes and leaves the specified address |
| CdcCode.CdcDevice.WriteFlash | scope/lufa-LUFA-170418/Bootloaders/CDC/BootloaderCDC.c:340-360 | the in-place loop leaves the specified page buffer and address |
| CdcCode.CdcDevice.WriteEeprom | scope/lufa-LUFA-170418/Bootloaders/CDC/BootloaderCDC.c:340-368 | the in-place loop leaves the specified EEPROM and address |
| CdcCode.CdcDevice.ReadWriteMemoryBlock | scope/lufa-LUFA-170418/Bootloaders/CDC/BootloaderCDC.c:276-383 | a block command leaves the specified state, also for an unknown memory type |
| CdcCode.CdcDevice.SetCurrentAddress | scope/lufa-LUFA-170418/Bootloaders/CDC/BootloaderCDC.c:487-488 | the address becomes the specified one |
| CdcCode.CdcDevice.EraseApplication | scope/lufa-LUFA-170418/Bootloaders/CDC/BootloaderCDC.c:518-524 | the in-place loop leaves the specified flash |
| CdcCode.CdcDevice.CdcTask | scope/lufa-LUFA-170418/Bootloaders/CDC/BootloaderCDC.c:441-638 | every command leaves the specified state |
| CdcCode.CdcDevice.Answer | scope/lufa-LUFA-170418/Bootloaders/CDC/BootloaderCDC.c:464-569 | the commands that only answer send the specified bytes and change nothing else |
| CdcCode.CdcDevice.SingleCommand | scope/lufa-LUFA-170418/Bootloaders/CDC/BootloaderCDC.c:571-638 | the commands on one word, page or byte leave the specified state |
| Fat12.UpdateEntryExactly | scope/lufa-LUFA-170418/Bootloaders/MassStorage/Lib/VirtualFAT.c:245-265 | over all entries and values: an update sets its entry, gives the middle four bits of an even entry's value to the low four bits of the next entry, and changes no other entry |
| Fat12.UpdateEntryIsolated | scope/lufa-LUFA-170418/Bootloaders/MassStorage/Lib/VirtualFAT.c:258-264 | an update leaves all other entries alone if and only if its index is odd or the next entry already has those four bits |
| Fat12.UpdateBeyond | scope/lufa-LUFA-170418/Bootloaders/MassStorage/Lib/VirtualFAT.c:250-250 | beyond entry 170 an update does not touch its own entry |
| Fat12.UpdateChainExactly | scope/lufa-LUFA-170418/Bootloaders/MassStorage/Lib/VirtualFAT.c:277-292 | what a chain update does to every entry of the table |
| Fat12.TableEntries | scope/lufa-LUFA-170418/Bootloaders/MassStorage/Lib/VirtualFAT.c:451-465 | what every reserved entry and every entry of two disjoint chains holds once both are written |
| Fat12.ChainsReadBack | scope/lufa-LUFA-170418/Bootloaders/MassStorage/Lib/VirtualFAT.c:451-465 | walking from the second start visits exactly its clusters and ends; from the first start too if and only if it is a single cluster or does not follow the second chain directly at an odd cluster; the reserved entries keep their values |
| Fat12.FirstChainLost | scope/lufa-LUFA-170418/Bootloaders/MassStorage/Lib/VirtualFAT.c:451-465 | a placement of the two files for which the first cannot be walked |
| MassStorageCode.UpdateFat12ClusterEntry | scope/lufa-LUFA-170418/Bootloaders/MassStorage/Lib/VirtualFAT.c:245-265 | the table array becomes the specified one |
| MassStorageCode.UpdateFat12ClusterChain | scope/lufa-LUFA-170418/Bootloaders/MassStorage/Lib/VirtualFAT.c:277-292 | the table array becomes the specified one |
| DiskFiles.SectorProgrammed | scope/lufa-LUFA-170418/Bootloaders/MassStorage/Lib/VirtualFAT.c:333-355 | a sector written at a page boundary stands in flash, whatever the page buffer held, and nothing else changes |
| DiskFiles.BytesStored | scope/lufa-LUFA-170418/Bootloaders/MassStorage/Lib/VirtualFAT.c:386-391 | a sector written to EEPROM replaces its bytes and no others |
| DiskFiles.WrittenBlockReads | scope/lufa-LUFA-170418/Bootloaders/MassStorage/Lib/VirtualFAT.c:399-482 | a block of either file reads back as it was written |
| DiskFiles.OtherBlocksKept | scope/lufa-LUFA-170418/Bootloaders/MassStorage/Lib/VirtualFAT.c:399-482 | a write of any block but the directory leaves every other block of the disk as it was, also when the files overlap |
| HostView.ClustersFound | scope/lufa-LUFA-170418/Bootloaders/MassStorage/Lib/VirtualFAT.c:435-482 | the walk from each directory entry through the table block finds the clusters of its file, for FLASH.BIN if and only if it is not lost |
| HostView.HostReadsFlash | scope/lufa-LUFA-170418/Bootloaders/MassStorage/Lib/VirtualFAT.c:303-332 | a host that follows directory and table reads byte k of flash as byte k of FLASH.BIN, for every k |
| HostView.HostReadsEeprom | scope/lufa-LUFA-170418/Bootloaders/MassStorage/Lib/VirtualFAT.c:366-385 | a host that follows directory and table reads byte k of the EEPROM as byte k of EEPROM.BIN, for every k |
| HostView.DirectoryShown | scope/lufa-LUFA-170418/Bootloaders/MassStorage/Lib/VirtualFAT.c:467-470 | the directory that the host reads from its block is the one the device works by |
| HostView.BootBlockShown | scope/lufa-LUFA-170418/Bootloaders/MassStorage/Lib/VirtualFAT.c:442-449 | the boot block is the boot record, zeros, and 55 AA |
| HostView.OutsideFiles | scope/lufa-LUFA-170418/Bootloaders/MassStorage/Lib/VirtualFAT.c:399-482 | a block of neither file reads as zeros, and writes to it, to the boot block and to the tables are ignored |
| HostView.FileUnits | scope/lufa-LUFA-170418/Bootloaders/MassStorage/Lib/VirtualFAT.h:64-72 | the sectors and clusters of a file hold its size, and one less would not |
| DirectoryMoves.DirectoryReadsBack | scope/lufa-LUFA-170418/Bootloaders/MassStorage/Lib/VirtualFAT.c:416-420 | a written directory block reads back as its first 160 bytes and zeros, and the memories stay |
| DirectoryMoves.StartsMoved | scope/lufa-LUFA-170418/Bootloaders/MassStorage/Lib/VirtualFAT.c:184-196 | the files then start at the little-endian clusters at bytes 90 and 154 of the block |
| DirectoryMoves.MovedFilesRead | scope/lufa-LUFA-170418/Bootloaders/MassStorage/Lib/VirtualFAT.c:303-385 | wherever a written directory places the files, a host that follows it and the table reads flash as FLASH.BIN and EEPROM as EEPROM.BIN |
| DirectoryMoves.MovedFileProgrammed | scope/lufa-LUFA-170418/Bootloaders/MassStorage/Lib/SCSI.c:238-274 | a WRITE (10) of a directory that moves the files and one of all sectors of FLASH.BIN at its new place put every byte at its address in flash, where the host finds it, and leave EEPROM.BIN as it was |
| MassStorageCode.MassStorage.ReadFlashFileBlock | scope/lufa-LUFA-170418/Bootloaders/MassStorage/Lib/VirtualFAT.c:303-332 | the buffer becomes the block of the file, or stays as it was outside it |
| MassStorageCode.MassStorage.ReadEepromFileBlock | scope/lufa-LUFA-170418/Bootloaders/MassStorage/Lib/VirtualFAT.c:366-385 | the buffer becomes the block of the file, or stays as it was outside it |
| MassStorageCode.MassStorage.WriteFlashFileBlock | scope/lufa-LUFA-170418/Bootloaders/MassStorage/Lib/VirtualFAT.c:333-355 | the loop leaves the specified flash |
| MassStorageCode.MassStorage.WriteEepromFileBlock | scope/lufa-LUFA-170418/Bootloaders/MassStorage/Lib/VirtualFAT.c:386-391 | the loop leaves the specified EEPROM |
| MassStorageCode.MassStorage.WriteBlock | scope/lufa-LUFA-170418/Bootloaders/MassStorage/Lib/VirtualFAT.c:399-428 | boot and table blocks are ignored, the directory is replaced by the first 160 bytes, other blocks go to the files |
| MassStorageCode.MassStorage.ReadBlock | scope/lufa-LUFA-170418/Bootloaders/MassStorage/Lib/VirtualFAT.c:435-482 | every block reads as specified |
| Scsi.BlocksWritten | scope/lufa-LUFA-170418/Bootloaders/MassStorage/Lib/SCSI.c:262-268 | after a range of file blocks is written, each reads as its sector and every other block as before |
| Scsi.WriteThenRead | scope/lufa-LUFA-170418/Bootloaders/MassStorage/Lib/SCSI.c:238-274 | a WRITE (10) over any range of file blocks and a READ (10) of it return the sectors; both succeed, all other blocks are unchanged, and the residue falls by both transfers |
| Scsi.RefusedWithoutEffect | scope/lufa-LUFA-170418/Bootloaders/MassStorage/Lib/SCSI.c:250-259 | a refused command changes nothing but the sense data |
| Scsi.BeyondTheDisk | scope/lufa-LUFA-170418/Bootloaders/MassStorage/Lib/SCSI.c:244-259 | a block address beyond the disk is refused if and only if its low sixteen bits are; block 65536 reads as block 0 |
| DragAndDrop.FileProgrammed | scope/lufa-LUFA-170418/Bootloaders/MassStorage/Lib/SCSI.c:238-274 | writing all sectors of FLASH.BIN puts every byte of the file at its address in flash and leaves every byte of EEPROM.BIN as it was |
| MassStorageCode.MassStorage.ReadWrite10 | scope/lufa-LUFA-170418/Bootloaders/MassStorage/Lib/SCSI.c:238-274 | the block loop leaves the specified disk, sense data and residue, and sends the specified sectors |
| TraceRoundTrip.CountFound | acq/Trace.py:226-250 | in any file that starts with a header the search for the count ends at its item |
| TraceRoundTrip.CountUpdated | acq/Trace.py:127-132 | rewriting the count gives the header of the new count, and changes none but the four count bytes |
| TraceRoundTrip.AddedTrace | acq/Trace.py:326-362 | a well-sized trace is appended as one record and the count goes up by one |
| TraceRoundTrip.FileOfRun | acq/Trace.py:252-362 | after any run of well-sized additions to a new file it holds the header with their number and their records in order |
| TraceRoundTrip.FormKeptExactly | acq/Trace.py:326-362 | adding any trace keeps the file well-formed if and only if the title is refused, or all parts have the right size, or the data are refused and titles are empty |
| TraceRoundTrip.OpenRecovers | acq/Trace.py:172-224 | opening a file with as many records as its header says recovers the encoded geometry and count, and ends behind the last record |
| TraceRoundTrip.NewFileReadsBack | acq/Trace.py:252-278 | a new file is opened with the geometry it was made with if and only if every field fits its width |
| TraceRoundTrip.TraceOfFile | acq/Trace.py:281-324 | the i-th trace read from a file of records is the i-th record's trace |
| TraceRoundTrip.WrittenTracesRead | acq/Trace.py:172-362 | a trace set written by any run of well-sized additions is opened with its geometry and count, and its i-th trace is the i-th trace added |
| TraceRoundTrip.ScalesFound | acq/Trace.py:160-166 | in the file of any run of well-sized additions the searches for the two scales end at the bytes of the scales the set was made with, and those for the labels at theirs |
| TraceRoundTrip.FileOfAnyRun | acq/Trace.py:326-362 | after any additions of any traces with any coding, the file is the header with the number of traces whose title and data fit, and what is kept of each trace in order; the count is always found |
| TraceRoundTrip.CutFileRead | acq/Trace.py:281-324 | of a file cut anywhere, a trace is read up to the cut and no further |
| TraceRoundTrip.ItemHead | acq/Trace.py:182-190 | lengths in one byte and in any number of bytes are read as written |
| TraceRoundTrip.ScanMoved | acq/Trace.py:172-224 | a scan finds the same wherever in the file it starts, with the trace block moved along |
| TraceRoundTrip.OpenBehindItem | acq/Trace.py:217-224 | a trace set behind an unknown item of any nonzero length opens with its geometry and count |
| TraceRoundTrip.EmptyItemEnds | acq/Trace.py:214-216 | an unknown item of tag zero or without a value ends the scan with nothing read |
| TraceSetCode.TraceSet.constructor | acq/Trace.py:62-85 | a new object has no file and knows no geometry |
| TraceSetCode.TraceSet.New | acq/Trace.py:252-278 | the file is the header of an empty set, with the position at its end |
| TraceSetCode.TraceSet.ReadHead | acq/Trace.py:182-190 | tag and length are read as specified, also lengths of several bytes and files that end early |
| TraceSetCode.TraceSet.Find | acq/Trace.py:226-250 | the loop returns the specified search result and leaves the position at the item found |
| TraceSetCode.TraceSet.UpdateNumberOfTraces | acq/Trace.py:127-132 | the file becomes the specified one, or the search failed and nothing changed |
| TraceSetCode.TraceSet.AddTrace | acq/Trace.py:326-362 | every outcome leaves the specified file: no file, wrong title, wrong data, added |
| TraceSetCode.TraceSet.TakeItem | acq/Trace.py:192-219 | an item updates the fields and the position as specified |
| TraceSetCode.TraceSet.Open | acq/Trace.py:172-224 | the loop ends with the specified fields and position |
| TraceSetCode.TraceSet.GetTrace | acq/Trace.py:281-324 | the trace is the specified one |
| ScopeProtocol.Execute | scope/lufa-LUFA-170418/Projects/HorrorScope/HorrorScope.c:91-201 | whatever command comes, the sample count stays within the buffer |
| ScopeProtocol.Step | scope/lufa-LUFA-170418/Projects/HorrorScope/HorrorScope.c:91-201 | every step of either side, in any order, keeps the sample count within the buffer |
| ScopeAgreement.SettingTaken | scope/lufa-LUFA-170418/Projects/HorrorScope/HorrorScope.c:111-194 | a setting takes effect in the firmware as the library means it and is answered by one byte, or is answered as too big and changes nothing |
| ScopeAgreement.StepHolds | acq/scope.py:76-147 | every step of the library or of the firmware keeps the invariant that ties channels, positions and settings together |
| ScopeAgreement.RunHolds | acq/scope.py:76-187 | the invariant holds after every run from a state where it holds |
| ScopeAgreement.BetweenCalls | acq/scope.py:76-147 | after any run from power-on, between calls: nothing is under way to the library, nothing to the firmware unless the sample count is zero, count, resolution, delay, pulses, power, bias, the low eight bits of the glitch length, the low three of the clock divider and the gains ever set agree, the count fits the buffer, and the samples and verdict last returned are the firmware's |
| ScopeAgreement.ZeroFetchLingers | acq/scope.py:135-147 | a run after which a fetch of zero samples has returned with its command still in the channel |
| ScopeAgreement.SettingOutcome | acq/scope.py:76-85 | a setting is confirmed if and only if its sample count, if it is one, fits the buffer; a refused one leaves the firmware with the settings before |
| ScopeAgreement.ArmingOutcome | acq/scope.py:120-133 | arming is always confirmed, and the verdict read is that of the trigger |
| ScopeAgreement.NoDeadlock | acq/scope.py:76-147 | whenever the library waits, a step other than giving up is possible |
| ScopeAgreement.WorkDecreases | acq/scope.py:76-147 | every step that is not a new call uses up work, so every exchange ends |
| ScopeTrace.ExecuteRecalls | scope/lufa-LUFA-170418/Projects/HorrorScope/HorrorScope.c:98-110 | arming clears the sample buffer, and no other command changes it |
| ScopeTrace.ReturnsLastTrace | acq/scope.py:120-147 | after any run from power-on, between calls: the samples last returned are those of the last time the scope fired, cut or filled with zeros to the sample count; and a trigger was reported complete if and only if the last one did not time out |
| ScopeGain.GainAdds | scope/lufa-LUFA-170418/Projects/HorrorScope/adc.c:234-240 | a gain from 0 to 7 adds its bits to those of the gain before |
| ScopeGain.GainExactly | scope/lufa-LUFA-170418/Projects/HorrorScope/adc.c:234-240 | the gain is the one asked for if and only if it has every bit of the gain before |
| ScopeGain.SecondGainMixed | scope/lufa-LUFA-170418/Projects/HorrorScope/adc.c:234-240 | asked for 1 and then for 2, the converter has 3 |
| ScopeCode.TimeoutTaken | scope/lufa-LUFA-170418/Projects/HorrorScope/HorrorScope.c:177-180 | the timeout command sets the timeout and nothing else |
| ScopeCode.AnswerSent | scope/lufa-LUFA-170418/Projects/HorrorScope/usb_serial.c:129-142 | as many sends as an answer takes put the whole answer in the channel, in order, through pieces of at most 63 bytes |
| ScopeCode.Firmware.constructor | scope/lufa-LUFA-170418/Projects/HorrorScope/HorrorScope.c:17-27 | the firmware starts with its defaults |
| ScopeCode.Firmware.GetShort | scope/lufa-LUFA-170418/Projects/HorrorScope/usb_serial.c:176-180 | two bytes, high byte first |
| ScopeCode.Firmware.PutBuf | scope/lufa-LUFA-170418/Projects/HorrorScope/usb_serial.c:129-142 | exactly the first bytes of the buffer are sent, in the least number of pieces of one to 63 bytes |
| ScopeCode.Firmware.PutString | scope/lufa-LUFA-170418/Projects/HorrorScope/usb_serial.c:150-155 | a text is sent byte by byte, whole |
| ScopeCode.Firmware.Configure | scope/lufa-LUFA-170418/Projects/HorrorScope/HorrorScope.c:111-194 | a setting leaves the specified settings and answer |
| ScopeCode.Firmware.Trigger | scope/lufa-LUFA-170418/Projects/HorrorScope/HorrorScope.c:98-168 | arming leaves the specified buffer, verdict and answers |
| ScopeCode.Firmware.Command | scope/lufa-LUFA-170418/Projects/HorrorScope/HorrorScope.c:91-201 | one turn of the command loop consumes exactly the command and leaves the specified settings, buffer and answer |

## Left out

- The USB stack, endpoints beyond their byte streams, descriptors, LEDs, watchdog, clocks, and the jump to the application.
- What reads of flash return while the read-while-write section is busy: the model reads the stored bytes.
- Loss of the host in the middle of a transfer: the CDC model reads zeros then, the DFU model ends the transfer, the Printer, mass-storage and scope models do not have it.
- The variants for flash beyond 64 KB in the CDC and Printer loaders where they differ only in the read instruction; the mass-storage model takes the width of the address as a parameter.
- The DFU file suffix beyond the bytes discarded, and the stall that goes with a refused command.
- The Printer loader on images with gaps, out of order, of odd length or above 64 KB: modelled in HexLoader, no image property is stated for them beyond what HexStray and HexExtended say.
- The CDC lock-bit write: its operand is taken and acknowledged, the lock bits are not changed.
- The HID bootloader and the host loaders: they repeat the flash round trip.
- SCSI commands other than READ (10) and WRITE (10), and the contents of the boot block, which is a parameter.
- Conversion of samples between numbers and bytes in the trace set and in getSamples: samples are byte strings; a read of a partial sample at the end of a file is not rounded down.
- Choice of a free file name, printing, and writing through a file opened for reading, in the trace set.
- Reusing one trace-set object to open a second file: Open is modelled for a fresh object.
- What the converter does with gain, clock divider and bias; of the channel register only the gain bits are modelled.
- The scope self-test and reconnect loop, and the timing of reads: a read that times out ends the modelled session, also in glitchArm and waitForGlitcher, which report it as a failure and go on.
- The sampling hardware, triggers and glitcher: their results are parameters of the steps.
- Plotting, attack scripts and the target programs other than AES.
- AesCode.Aes.KeyExpansion: requires room for the schedule and separate arrays, as the callers provide.
- KeySchedule.WindowDeterminesKey: for Nk of at least two; with Nk of one the recurrence does not give a word from the next one.
- FaultSpread.EarlyFault: for four columns only, the block size of the standard.
- DfuTransfer.DownloadUploadRoundTrip: for a page-aligned start, a blank page buffer and packets of even length, as the source sends words.
- DfuEeprom.EepromRoundTrip: for a range that starts at a packet boundary, where the code discards no alignment bytes.
- HexImage.FileLoadsImage: for images up to the boot section; HexGuard.LongImageStopsAtBoot has the longer ones.
- CdcFills.FillsProgram: for a blank page and a blank page buffer, which the command sequence does not provide for itself.
- CdcTransfer.FlashRoundTrip: for a page-aligned start, an even length and a blank page buffer; other block writes do not start a page or leave a byte behind.
