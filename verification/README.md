# PasswordMgr core in Dafny

PasswordMgr is a small Qt desktop password generator with a KDE wallet tab.
This project models its deterministic core as immutable values and pure
functions, and proves what each operation promises.

- **Keystream** (`Keystream`, with byte helpers in `Bytes`). This is the
  generator state of `PasswordGenerator`:
  - a 32-byte key, a 128-bit counter held as two 64-bit words, a 16-byte
    current block and a cursor;
  - the counter increment with carry;
  - the feedback block advance: the new block is the old block XOR the
    incremented counter's bytes, encrypted under the key;
  - the cursor-driven byte draw;
  - the durable record, rewritten on every advance;
  - the state load, which falls back to fresh synthesis (and, as written, keeps a key read from a partial record).

  The AES-256 block transform is the parameter `enc`, an arbitrary total
  function from a 32-byte key and a 16-byte block to a 16-byte block. The
  seeded Mersenne-Twister engines are the parameter `rnd`: `rnd(id, k)` is
  the `k`-th 64-bit word of the engine created with sequence number `id`.
  The durable record `LoadState` sees is `Option<Snapshot>`, where `None`
  means no complete record. `StateRead` says how far the source's read
  actually gets (nothing, the key only, or the whole record), and
  `LoadedAsWritten` is the load on that. The counter's sixteen bytes are fixed little-endian
  (low word first), because the source relies on the host's union layout.
- **Password assembly** (`Assembly`, with `Stock` for `CharacterStock`).
  `generate` makes three passes: the per-class minimum pass, the fill pass
  from the concatenated pool, and the swap-only shuffle.
- **Wallet entry list** (`WalletModel`): find, sorted insertion, removal,
  rename, role data, and the `load` reconciliation. Wallet calls that can
  fail are boolean parameters.
- **Combo-box insertion** (`ComboBox`): `populateComboBox` over
  (items, current index, edit text, insert policy, duplicates flag).
- **Generator panel** (`MainFrame`) covers:
  - the minimum-length sum and the length clamp;
  - building the stock from the checked classes;
  - the most-recently-used combo order and the saved-items round trip;
  - the nine-field preset record;
  - the preset store and the preset part of `loadConfig`.
- **Wallet row editor** (`WalletWidget`): rows of (pane number, user name,
  password, visible), with delete-by-shift, filter-to-save, fill-and-clear
  and row growth.
- **History item** (`HistoryItem`): the role map of `PasswordListItem`,
  where edit aliases the password role, plus the `"Len %1: %2"` display text.

`Strings` holds the Qt string behaviour the modules share:
- `QString::compare` as Qt 5.9 computes it. This is an assumption about
  the library: the source only needs Qt 5.9 or later, because it names the
  `QDataStream::Qt_5_9` format. Strings are compared as UTF-16 code units,
  and the result is the difference of the first differing units, or else
  of the lengths;
- `indexOf`;
- list insert and remove;
- a sort by `compare`;
- the Basic Latin and Latin-1 part of `toLower`.

## Model

| member | source | states |
|---|---|---|
| Keystream.Increment | src/PasswordGenerator.cc:124-136 | adds exactly one modulo 2^128; a low word of 2^64-1 wraps to 0 and carries into the high word (itself modulo 2^64), otherwise only the low word moves |
| Keystream.CounterBytes | src/PasswordGenerator.h:69-83 | the sixteen bytes overlaying the counter are the low word's eight little-endian bytes followed by the high word's |
| Keystream.CounterBytesValue | src/PasswordGenerator.h:71-75 | read as one little-endian number, the sixteen bytes are the counter's 128-bit value |
| Keystream.CounterBytesRoundTrip | src/PasswordGenerator.h:71-75 | the two words can be read back from the sixteen bytes, so the overlay loses nothing |
| Keystream.CounterBytesInjective | src/PasswordGenerator.cc:181-189 | distinct counters mask the block with distinct byte strings |
| Keystream.NewGenerator | src/PasswordGenerator.cc:145-148 | a new generator is unkeyed, has empty data blocks and is well formed |
| Keystream.AdvanceBlock | src/PasswordGenerator.cc:181-201 | one advance increments the counter once, XORs its new bytes into the old block, encrypts under the unchanged key, records (key, new counter, new block) as the durable record, and resets the cursor to 0 |
| Keystream.NextByte | src/PasswordGenerator.cc:203-209 | a used-up block (cursor 16) is advanced first; the byte is the block's byte at the cursor, and afterwards the cursor lies in 1..16 and the key is unchanged |
| Keystream.AdvanceTimesCounter | src/PasswordGenerator.cc:124-136 | n advances move the counter on by exactly n modulo 2^128 |
| Keystream.AdvanceTimesIncrements | src/PasswordGenerator.cc:181-201 | n advances are n counter increments |
| Keystream.IncrementTimesValue | src/PasswordGenerator.cc:124-136 | n increments add n modulo 2^128 |
| Keystream.CountersNeverRepeat | src/PasswordGenerator.cc:181-189 | within 2^128 advances under one key no counter value is used twice |
| Keystream.SynthBytes | src/PasswordGenerator.cc:89-108 | byte i of a synthesised block is the engine's (i div 8)-th word shifted right by 8·(i mod 8) bits and taken whole modulo 0xFF, so every such byte is at most 254 |
| Keystream.SynthByte | src/PasswordGenerator.cc:96-106 | one synthesised byte is below 0xFF, since the shifted word is reduced modulo 0xFF |
| Keystream.RandomCounter | src/PasswordGenerator.cc:116-122 | a fresh counter's value is the engine's first word plus 2^64 times its second, the two words `initRandom` stores low and high |
| Keystream.InitRandom | src/PasswordGenerator.cc:89-108 | the loop appends exactly the synthesised bytes to what the block already held, one engine word per eight bytes; the new bytes are at most 254 |
| Keystream.SynthStep | src/PasswordGenerator.cc:96-106 | the byte at offset wi of the current word is the next synthesised byte |
| Keystream.LoadState | src/PasswordGenerator.cc:211-235 | a readable record supplies key, counter and block together; otherwise all three come from three fresh engines (key, counter, block in that order), are saved at once, and the engine sequence moves on by three |
| Keystream.LoadedAsWrittenElsewhere | src/PasswordGenerator.cc:211-235 | as written, a missing record or one whose key does not read loads as `LoadState` loads, and so does a whole record |
| Keystream.PartialRecordDoublesKey | src/PasswordGenerator.cc:221-232 | as written, a record that fails after its key leaves a 64-byte key, the stored key followed by 32 fresh bytes; `LoadState` gives 32 |
| Keystream.InitCipher | src/PasswordGenerator.cc:166-179 | a keyed generator is left alone; otherwise the cipher is keyed with the loaded key, the engine sequence is the one after loading, and the forced advance leaves the cursor at 0 and the counter one past the loaded counter |
| Keystream.InitCipherAdvancesLoaded | src/PasswordGenerator.cc:166-201 | the first use's block is the loaded block XOR the bytes of the loaded counter plus one, encrypted under the loaded key, and that state becomes the durable record |
| Keystream.RestartResumesFromRecord | src/PasswordGenerator.cc:166-235 | a restart from the record of a running generator produces the very block that generator would produce next |
| Keystream.FirstInitAdvancesOnce | src/PasswordGenerator.cc:166-179 | the first use keys from the record and leaves the counter one past the stored value with cursor 0 |
| Stock.Add | src/PasswordGenerator.h:45-48 | appends one item holding the given characters and minimum verbatim; earlier items are unchanged |
| Stock.DrawnIsMinSum | src/PasswordGenerator.cc:258-269 | with no negative minimum, the minimum pass draws exactly the running total `currLength` |
| Stock.MinSumAtMostDrawn | src/PasswordGenerator.cc:258-269 | a negative minimum only lowers `currLength` below the number of characters drawn |
| Stock.PoolContainsItem | src/PasswordGenerator.cc:260-261 | every character of every class is in the concatenated pool |
| Assembly.Swap | src/PasswordGenerator.cc:279-283 | the two `replace` calls exchange the characters at the two positions and keep the multiset |
| Assembly.DrawMinimums | src/PasswordGenerator.cc:258-269 | the first pass draws Σ max(0, minLength) characters, all from the pool, with at least minLength from each class |
| Assembly.Fill | src/PasswordGenerator.cc:270-274 | the second pass appends max(0, length - currLength) characters from the pool and keeps the prefix |
| Assembly.Shuffle | src/PasswordGenerator.cc:275-284 | the bound is redrawn every round, so the shuffle runs between 128 and 383 rounds; it only swaps, so the multiset is kept |
| Assembly.MeetsMinimumsPermutation | src/PasswordGenerator.cc:275-284 | rearranging characters keeps every class count |
| Assembly.CountInPermutation | src/PasswordGenerator.cc:275-284 | a class count depends only on the multiset of characters |
| Assembly.MeetsMinimumsExtend | src/PasswordGenerator.cc:270-274 | the fill pass cannot lower a class count |
| Assembly.StartBlock | src/PasswordGenerator.cc:253-255 | every `generate` keys the cipher if needed and then advances one block; on a keyed generator the key stays and the counter moves on by one |
| Assembly.StartBlockFromRecord | src/PasswordGenerator.cc:166-179 | on the first `generate` from a record, `initCipher`'s advance and `generate`'s own advance leave the counter two past the stored value, under the stored key |
| Assembly.StartBlockFresh | src/PasswordGenerator.cc:166-179 | on the first `generate` without a record, the key is the first fresh engine's bytes and the counter two past the second engine's counter |
| Assembly.StartBlockTwoSteps | src/PasswordGenerator.cc:251-255 | on an unkeyed generator the two forced advances act on the loaded state: its key, and its counter incremented twice |
| Assembly.IncrementTwice | src/PasswordGenerator.cc:124-136 | two increments add two modulo 2^128 |
| Assembly.Assemble | src/PasswordGenerator.cc:258-284 | on a keyed generator and a request that divides by no zero, the three passes give Σ max(0, minLength) + max(0, length - Σ minLength) characters from the pool, each class meeting its minimum, under the unchanged key |
| Assembly.Generate | src/PasswordGenerator.cc:251-286 | as written, so only for `Generable` requests (elsewhere the source divides by zero): the password has Σ max(0, minLength) + max(0, length - Σ minLength) characters, which is max(length, Σ minLength) when no minimum is negative; every character comes from the pool, each class contributes at least its minimum, and the generator stays keyed under its key |
| Assembly.GenerateOrFail | src/PasswordGenerator.cc:251-286 | corrected: a request fails exactly when the source would divide by zero (a class with a positive minimum and no characters, a needed fill from an empty pool, or an empty result to shuffle), and then the generator is untouched; any other request gets `generate`'s password |
| Assembly.GeneratedLength | src/PasswordGenerator.cc:258-274 | with no negative minimum the length is max(length, Σ minLength) |
| Strings.CharUnits | src/kde/WalletModel.cc:29-32 | a character below U+10000 is one code unit equal to it; any other is a high surrogate followed by a low one |
| Strings.Utf16RoundTrip | src/kde/WalletModel.cc:29-32 | decoding the UTF-16 units gives the string back, so `compare` sees distinct strings as distinct units |
| Strings.CommonPrefix | src/kde/WalletModel.cc:29-32 | the length of the longest common prefix of two unit sequences: the units agree before it and differ at it when both go on |
| Strings.CompareFirstDifference | src/kde/WalletModel.cc:29-32 | `compare` is the difference of the first differing code units, or when one string's units are a prefix of the other's, the difference of the unit counts |
| Strings.CompareByCodeUnits | src/kde/WalletModel.cc:29-32 | a supplementary character counts two units, so compare("a𝄞", "a") is 2, and U+10000 sorts below U+FFFF |
| Strings.CompareZeroIffEqual | src/kde/WalletModel.cc:29-32 | `compare` is zero exactly on equal strings |
| Strings.CompareAntisymmetric | src/kde/WalletModel.cc:29-32 | swapping the arguments negates `compare` |
| Strings.CompareTransitive | src/kde/WalletModel.cc:29-32 | "compares at most" is transitive, so the order `load` sorts by is a total preorder |
| Strings.CompareTotal | src/kde/WalletModel.cc:29-32 | of any two strings one compares at most the other |
| Strings.Sort | src/kde/WalletModel.cc:218-221 | the sort by `compare(a, b) < 0` yields a sorted permutation of its input |
| Strings.SortedUnique | src/kde/WalletModel.cc:218-221 | two sorted permutations of the same entries are equal, so the sorted list does not depend on the sorting algorithm |
| Strings.InsertBeforeGreaterKeepsSorted | src/kde/WalletModel.cc:267-277 | inserting before the first strictly greater entry keeps a sorted list sorted |
| Strings.IndexOf | src/kde/WalletModel.cc:258-265 | -1 exactly when the value is absent; otherwise a position holding it with no copy before it |
| Strings.LowerChar | src/helper.cc:60-66 | A to Z and the Latin-1 capitals U+00C0 to U+00DE except U+00D7 move up by 32 to their small letters; every other character stays |
| Strings.Lower | src/helper.cc:60-66 | lowering keeps the length, lowers each character on its own, and leaves no capital it folds |
| Strings.LowerIdempotent | src/helper.cc:60-66 | lowering a lowered text changes nothing |
| WalletModel.Find | src/kde/WalletModel.cc:258-265 | a valid index exactly when the entry occurs, and then at its first occurrence |
| WalletModel.HasEntry | src/kde/WalletModel.cc:82-86 | true exactly when the entry occurs |
| WalletModel.FindNext | src/kde/WalletModel.cc:267-277 | the first row whose entry compares above the new one by more than 1, or the length; every earlier row compares at most 1 |
| WalletModel.FindNextCountsCodeUnits | src/kde/WalletModel.cc:267-277 | counted in UTF-16 units, a prefix of an entry that ends in a supplementary character stops `findNext` in front of that entry |
| WalletModel.Insert | src/kde/WalletModel.cc:279-295 | the entry lands at the given row, or at the end for an invalid index, with the other rows in order around it |
| WalletModel.Remove | src/kde/WalletModel.cc:302-310 | exactly the indexed row goes; the rest keep their order |
| WalletModel.Rename | src/kde/WalletModel.cc:317-323 | only the indexed row changes, to the new name |
| WalletModel.AddEntry | src/kde/WalletModel.cc:53-63 | a present entry leaves the list unchanged and yields its first row; a new one is inserted once at `findNext`'s row, and removing it there gives the old list back |
| WalletModel.AddEntryIdempotent | src/kde/WalletModel.cc:53-63 | adding the same entry twice is adding it once |
| WalletModel.RemoveInsertAt | src/kde/WalletModel.cc:279-310 | `remove` at the row of an `insert` undoes it |
| WalletModel.AddEntryBreaksOrder | src/kde/WalletModel.cc:267-277 | as written, adding "a" to the sorted list ["b"] gives a list that is not sorted |
| WalletModel.AddEntrySorted | src/kde/WalletModel.cc:53-63 | `addEntry` with a strict (> 0) `findNext`: same outcome shape, insertion before the first greater entry |
| WalletModel.AddEntrySortedKeepsOrder | src/kde/WalletModel.cc:267-277 | with the strict threshold, adding keeps a sorted list sorted |
| WalletModel.RemoveEntryAt | src/kde/WalletModel.cc:88-96 | no change for an invalid index or a failed wallet removal; otherwise exactly that row goes |
| WalletModel.RemoveEntryNamed | src/kde/WalletModel.cc:98-106 | no change when the name is absent or the wallet removal fails; otherwise exactly the first copy of the name goes and the rows before and after it keep their order |
| WalletModel.RemoveEntryNamedRemoves | src/kde/WalletModel.cc:98-106 | on a list of distinct names the removed name is gone and the list is one shorter |
| WalletModel.SetData | src/kde/WalletModel.cc:136-168 | an invalid index returns false; display and edit roles return true exactly when the name is non-empty, differs and the wallet rename succeeds, and only then rename the row; the content role returns true and leaves the list alone |
| WalletModel.Data | src/kde/WalletModel.cc:119-134 | the display and edit roles of a valid row give that row's entry, and no other role gives a name |
| WalletModel.SetDataThenData | src/kde/WalletModel.cc:136-168 | after a successful rename the row shows the new name and every other row shows what it showed before |
| WalletModel.Merge | src/kde/WalletModel.cc:223-242 | the merging loop ends with the first i rows equal to the first i sorted wallet names, and one of the two lists used up |
| WalletModel.AppendRest | src/kde/WalletModel.cc:244-248 | appending the leftover wallet names makes the sorted names a prefix of the list |
| WalletModel.DropRest | src/kde/WalletModel.cc:249-250 | removing rows past the wallet's names leaves exactly that prefix |
| WalletModel.Load | src/kde/WalletModel.cc:215-251 | whatever the list held before, afterwards it is the wallet's names sorted by `compare`, so `rowCount` is the wallet's size and `entryList` those sorted names |
| WalletModel.RowCountFollowsEdits | src/kde/WalletModel.cc:113-117 | `rowCount` grows by one exactly when `addEntry` gets a new name, and drops by one exactly when a removal by index goes through |
| WalletModel.EntriesAreRows | src/kde/WalletModel.cc:76-86 | `entryList` has one name per row, row i's name is what the display role shows there, and a name is listed exactly when `hasEntry` finds it |
| ComboBox.CurrentText | src/MainFrame.cc:139-145 | a box without a line edit shows one of its items or nothing |
| ComboBox.AlphaPos | src/helper.cc:60-66 | before the first item whose lower-cased text (Basic Latin and Latin-1 capitals folded) is above the lower-cased new text, or at the end |
| ComboBox.AlphaPosCaseInsensitive | src/helper.cc:60-66 | two new texts that lower to the same text get the same alphabetical slot |
| ComboBox.AlphaPosOfLowered | src/helper.cc:60-66 | lower-casing the new text first does not move its alphabetical slot |
| ComboBox.InsertIndex | src/helper.cc:41-69 | top gives 0, bottom gives the count, alphabetical gives `AlphaPos`; on an empty box the current-relative policies give 0; otherwise after-current gives current+1, before-current gives current, and at-current and no-insert give no index |
| ComboBox.Place | src/helper.cc:41-73 | at-current on a non-empty box overwrites the current item; otherwise a non-negative index inserts the text there and makes it current, keeping the other items in order, and a negative one changes nothing |
| ComboBox.Populate | src/helper.cc:23-75 | no change without a policy or text; an existing copy is selected when duplicates are disabled; otherwise the text is placed as the policy says |
| ComboBox.PopulateShowsText | src/helper.cc:23-75 | afterwards the current item is the text, except when a current-relative policy finds no current item |
| ComboBox.PopulateIdempotent | src/helper.cc:23-75 | without duplicates a second populate with the same text changes nothing |
| ComboBox.PopulateKeepsDistinct | src/helper.cc:34-40 | without duplicates a list of distinct texts stays distinct |
| MainFrame.HandleMinSpinnerChange | src/MainFrame.cc:445-455 | the minimum becomes the sum of the checked classes' spinners, and a shorter length is raised to it and shown |
| MainFrame.HandlePasswordLengthChange | src/MainFrame.cc:401-408 | a length below the minimum is clamped up to it; afterwards the label shows the length |
| MainFrame.HandlersCoverMinimum | src/MainFrame.cc:401-455 | after either handler the length is at least the checked classes' minimum |
| MainFrame.StockMinimum | src/MainFrame.cc:322-328 | the stock needs exactly the minimum the panel computes |
| MainFrame.StockNonNegative | src/MainFrame.cc:322-328 | non-negative spinners give a stock with no negative minimum |
| MainFrame.PopulateKeepsCurrentText | src/MainFrame.cc:325-326 | populating a box never changes the text the stock takes from it |
| MainFrame.BuildStock | src/MainFrame.cc:322-328 | one item per checked class in class order, with that class's current text and minimum; checked boxes are populated and unchecked ones are untouched |
| MainFrame.GeneratedLengthIsShown | src/MainFrame.cc:319-331 | with non-negative minimums and a covered length, `generate` returns exactly the displayed length |
| MainFrame.StockOfConcat | src/MainFrame.cc:322-328 | the stock of two runs of classes is the stock of the first followed by that of the second |
| MainFrame.StockOfSingle | src/MainFrame.cc:322-328 | one class gives one item, its current text and minimum, exactly when it is checked |
| MainFrame.StockOfUnchecked | src/MainFrame.cc:322-328 | with no toggle checked the stock is empty |
| MainFrame.StockOfChecked | src/MainFrame.cc:322-328 | a checked class's current text and minimum are an item of the stock |
| MainFrame.UncheckedPanelCannotGenerate | src/MainFrame.cc:319-331 | as written, pressing generate with every toggle unchecked is a request `generate` cannot serve without dividing by zero |
| MainFrame.EmptyClassCannotGenerate | src/MainFrame.cc:319-331 | as written, a checked class with an empty text and a positive minimum is a request `generate` cannot serve without dividing by zero |
| MainFrame.HandleGeneratePressed | src/MainFrame.cc:319-335 | with the corrected `generate`: the checked boxes are populated without changing their texts; no password exactly when the request divides by zero, and then the generator is untouched; otherwise the password comes from the checked classes' pool, meets each minimum, and with non-negative minimums and a covered length has the spinner's length |
| MainFrame.MoveToFront | src/MainFrame.cc:433-443 | the text is first, followed by the old items without their first copy of it |
| MainFrame.MoveToFrontIdempotent | src/MainFrame.cc:433-443 | choosing the front text again changes nothing |
| MainFrame.MoveToFrontKeepsDistinct | src/MainFrame.cc:433-443 | a list of distinct texts stays distinct |
| MainFrame.SetComboBoxItems | src/MainFrame.cc:50-58 | the old items stay in front, followed by the saved entries other than the edit text, in their saved order and with their repetitions |
| MainFrame.Without | src/MainFrame.cc:50-58 | the saved entries other than the edit text: exactly the same multiset with every copy of the text removed, and the list itself when the text is not saved |
| MainFrame.WithoutConcat | src/MainFrame.cc:50-58 | the filter works entry by entry, so it distributes over concatenation and keeps the kept entries in order |
| MainFrame.WithoutStep | src/MainFrame.cc:50-58 | the last entry is kept exactly when it differs from the edit text |
| MainFrame.WithoutSingle | src/MainFrame.cc:50-58 | a single entry is kept exactly when it differs from the edit text |
| MainFrame.ItemsRoundTrip | src/MainFrame.cc:42-58 | `getComboBoxItems` then `setComboBoxItems`: restoring saved items into an empty box whose edit text is not among them gives the items back |
| MainFrame.Encode | src/MainFrame.cc:183-192 | a record is nine tokens |
| MainFrame.ToByteArray | src/MainFrame.cc:177-195 | a failed set serialises to nothing, any other set to nine tokens |
| MainFrame.Decode | src/MainFrame.cc:76-99 | a record reads exactly when it has nine tokens of the kinds written, in order |
| MainFrame.DecodeEncode | src/MainFrame.cc:76-195 | reading what `toByteArray` wrote gives the fields back, whatever follows |
| MainFrame.DecodeTruncated | src/MainFrame.cc:76-99 | a record cut short anywhere does not read |
| MainFrame.ParseOptionSet | src/MainFrame.cc:76-99 | as written: a failed read marks the set failed; a full read keeps the fields and leaves the flag as it was |
| MainFrame.ParseOptionSetDropsComplete | src/MainFrame.cc:76-99 | as written, a complete record can come out failed |
| MainFrame.ParsePreset | src/MainFrame.cc:76-99 | corrected: the set is failed exactly when the record does not read |
| MainFrame.ParsePresetRoundTrip | src/MainFrame.cc:76-195 | a set that did not fail survives serialising and parsing |
| MainFrame.CheckStateOf | src/MainFrame.cc:154-160 | `checkState` after `setCheckState` is in 0 to 2; it equals the value written exactly when that value is 0 to 2, and is unchecked exactly when 0 was written |
| MainFrame.SetToggle | src/MainFrame.cc:419-455 | the toggle takes the read-back state; a change runs `handleCharsCheckboxChange`, so a current minimum stays current and a covered length stays covered |
| MainFrame.SetEditTextShows | src/MainFrame.cc:155-173 | after `setEditText` a box with a line edit gives the text back through `currentText`, and a box without one gives what it gave before |
| MainFrame.SetText | src/MainFrame.cc:155 | `setEditText` on one box: only that box's edit text can change, and a box without a line edit keeps it; length, minimum and the minimum the classes imply stay |
| MainFrame.MinimumOfUpdate | src/MainFrame.cc:445-450 | the minimum depends only on the check states and minimum spinners, not on the texts |
| MainFrame.SetLength | src/MainFrame.cc:401-408 | `setValue` then `handlePasswordLengthChange`: from a covered panel the length ends as the larger of the value and the minimum |
| MainFrame.Written | src/MainFrame.cc:150-163 | writing a set's states and texts leaves four classes with their spinners and saved items |
| MainFrame.WriteClass | src/MainFrame.cc:154-161 | one class's toggle and text setters keep the panel well formed, the minimum current and the length covered |
| MainFrame.WriteState | src/MainFrame.cc:150-163 | a failed set changes nothing; otherwise each toggle takes the check state `setCheckState` reads back (0, 1, or 2 for anything else) and fires the minimum recomputation when it changes, each box with a line edit takes its text, and the length goes through the spinner's slot, so it ends as the larger of the set's length and the new minimum; spinners and saved items stay, and the panel stays well formed |
| MainFrame.ReadState | src/MainFrame.cc:137-148 | a set read from the panel is not failed and carries the panel's length |
| MainFrame.WriteReadRoundTrip | src/MainFrame.cc:137-163 | writing a set with check states 0 to 2 and a length at least the minimum it implies to a panel with line edits, then reading it back, gives the set |
| MainFrame.WriteThenCheck | src/MainFrame.cc:150-175 | after writing a set, `checkState` holds for it exactly when its check states are 0 to 2 and its length is at least the minimum it implies |
| MainFrame.CheckStateIsReadState | src/MainFrame.cc:137-175 | for a set that did not fail, `checkState` holds exactly when reading the panel under the set's name gives the set |
| MainFrame.AddOptionSet | src/MainFrame.cc:484-492 | the map entry is always overwritten; the name joins the combo only when it is new |
| MainFrame.AddOptionSetKeepsValid | src/MainFrame.cc:484-492 | the combo keeps listing every stored name exactly once, sorted |
| MainFrame.SavePreset | src/MainFrame.cc:472-478 | an empty name changes nothing; otherwise the panel's set is stored under the name, every other stored set stays, and a valid store stays valid |
| MainFrame.SelectPreset | src/MainFrame.cc:457-465 | a known non-empty name writes its set to the panel; anything else changes nothing |
| MainFrame.SaveThenSelect | src/MainFrame.cc:457-478 | saving the panel and selecting that name leaves a panel with line edits unchanged |
| MainFrame.ReadableNamesExact | src/MainFrame.cc:277-288 | a name is kept exactly when some record of that name reads |
| MainFrame.DroppedNamesExact | src/MainFrame.cc:283-286 | a name is dropped exactly when some record of that name does not read |
| MainFrame.FirstMatchIsFirst | src/MainFrame.cc:280-282 | the selected name belongs to the first record that reads as the panel's settings |
| MainFrame.LoadRecord | src/MainFrame.cc:277-287 | with the corrected parse, one pass adds a readable set or drops an unreadable name, and selects the first match |
| MainFrame.LoadPresets | src/MainFrame.cc:274-291 | with the corrected parse, exactly the readable records are stored, none failed and each under its own name, in a sorted combo; the unreadable ones are dropped; the first record matching the panel is selected |
| WalletWidget.Fill | src/kde/WalletWidget.cc:89-94 | a filled row shows the content's texts and is visible, in its own pane |
| WalletWidget.CopyText | src/kde/WalletWidget.cc:96-100 | the row takes the other row's texts and keeps its pane and visibility |
| WalletWidget.Clear | src/kde/WalletWidget.cc:102-107 | a cleared row is blank and hidden, in its own pane |
| WalletWidget.ClearForgetsFill | src/kde/WalletWidget.cc:89-107 | clearing undoes any fill, and a fill overrides any clearing |
| WalletWidget.Fields | src/kde/WalletWidget.cc:328-344 | the rows grow to more than pos with new empty rows numbered by position; existing rows are not modified |
| WalletWidget.FieldsKeepsNumbering | src/kde/WalletWidget.cc:328-344 | growing keeps panes numbered by position |
| WalletWidget.GetPanePos | src/kde/WalletWidget.cc:404-416 | the first row owning the pane, or -1 when no row does |
| WalletWidget.GetPanePosIsNumber | src/kde/WalletWidget.cc:404-416 | with panes numbered by position, a pane's row is its number |
| WalletWidget.SaveEntryContent | src/kde/WalletWidget.cc:191-211 | nothing without a selection; otherwise, while the page is on screen, the visible rows with some text in row order, and while it is hidden an empty list, since `isVisible` needs every ancestor shown |
| WalletWidget.SavedFromRows | src/kde/WalletWidget.cc:197-208 | every saved content comes from a visible row with that text |
| WalletWidget.ShiftedIsDeleteAppend | src/kde/WalletWidget.cc:276-281 | the texts the rows show after the shift are the old texts with position pos deleted and a blank appended |
| WalletWidget.ShiftedKeepsPanes | src/kde/WalletWidget.cc:276-281 | panes keep their numbers and, except the last, their visibility; the last row is hidden |
| WalletWidget.ShiftRows | src/kde/WalletWidget.cc:276-281 | the copy loop and the clearing of the last row compute the shift |
| WalletWidget.RemovePassword | src/kde/WalletWidget.cc:252-283 | no change for -1 or a declined confirmation of a row with text; otherwise the rows shift, `fieldsVisible` stays and the content is saved |
| WalletWidget.LoadContent | src/kde/WalletWidget.cc:166-189 | an invalid index changes nothing; otherwise the first k rows show the k contents, `fieldsVisible` is k, and every later row is cleared and hidden |
| WalletWidget.AppendPasswordFields | src/kde/WalletWidget.cc:418-424 | row `fieldsVisible` exists and is shown with its texts, and `fieldsVisible` goes up by one; no other row changes |
| WalletWidget.LoadContentKeepsValid | src/kde/WalletWidget.cc:166-189 | loading keeps the panes numbered and `fieldsVisible` within the rows |
| WalletWidget.AppendKeepsValid | src/kde/WalletWidget.cc:418-424 | appending keeps the panes numbered and `fieldsVisible` within the rows |
| WalletWidget.ShiftedKeepsValid | src/kde/WalletWidget.cc:276-281 | removing keeps the panes numbered and `fieldsVisible` within the rows |
| WalletWidget.LoadThenSave | src/kde/WalletWidget.cc:166-211 | saving right after loading gives back the loaded contents when none is blank and the page is on screen |
| HistoryItem.DisplayText | src/PasswordListItem.cc:52-55 | the display text starts with "Len ", ends with the password, and is at least eight characters longer than it |
| HistoryItem.Layout | src/PasswordListItem.cc:53-54 | a padded field of at least two places between "Len " and ": " puts the password at the end |
| HistoryItem.DigitsRoundTrip | src/PasswordListItem.cc:52-55 | a number's decimal digits read back as the number |
| HistoryItem.DecimalRoundTrip | src/PasswordListItem.cc:52-55 | the decimal text of any integer, negative ones included, reads back as it |
| HistoryItem.PadLeft | src/PasswordListItem.cc:52-55 | the field width right-aligns with leading spaces and never truncates |
| HistoryItem.TrimPadded | src/PasswordListItem.cc:52-55 | dropping the padding gives the number's text back |
| HistoryItem.DisplayWidth | src/PasswordListItem.cc:52-55 | a length from 0 to 99 takes exactly two places, so the password starts at column 8 |
| HistoryItem.DisplayRoundTrip | src/PasswordListItem.cc:52-55 | the display text determines the length and the password, whatever the password holds |
| HistoryItem.New | src/PasswordListItem.cc:24-29 | a new item stores values under the display, password and length roles only |
| HistoryItem.NewReadsBack | src/PasswordListItem.cc:24-29 | a new item reads back its password under the password and edit roles and its length under the length role, and shows both |
| HistoryItem.SetDisplayIgnored | src/PasswordListItem.cc:39-48 | `setData` on the display role changes nothing `data` reads under any role |
| HistoryItem.EditIsPassword | src/PasswordListItem.cc:39-60 | in `setData` and `data` the edit role and the password role are one: a write through either is read through both |
| HistoryItem.SetThenGet | src/PasswordListItem.cc:39-60 | `data` of any other role reads back what `setData` wrote, and a write leaves every other role alone |
| HistoryItem.NewDisplayDecodes | src/PasswordListItem.cc:24-60 | a new entry's display text gives back its length and password |

## Left out

- The AES-256 block transform is left out. `enc` is any total function of the right shape, and `ecbDecrypt` is never called.
- Seeding is left out: process id, wall clock, a function address and `mt19937_64`. It is nondeterministic, so it becomes the word supply `rnd`.
- File and stream I/O is left out: `QFile`, `QDataStream` transactions and `QStandardPaths`. A read is described by how far it gets (`StateRead`); a write always lands.
- Keystream.CounterBytes: the byte order is fixed little-endian. The source reads the union's bytes in host order.
- Randomness quality is left out: no uniformity is stated for `byte % n`.
- `createFieldsPane`, echo modes and widget enabling are left out. `handleCharsCheckboxChange` is modelled only through the minimum it recomputes.
- Dialogs, the clipboard, `StatusBubble`, `main` and `loadIcon` are left out.
- `QSettings` is left out. So are window geometry and the non-preset settings of `loadConfig` and `saveConfig`.
- Removing dropped presets from settings is modelled as the list of dropped names.
- KWallet plumbing is left out: opening, folder updates, `addPassword`, content loading and saving, and model notifications. Wallet results are boolean parameters. The wallet content stored under the content role is not modelled.
- Keystream.LoadState: is the corrected load (see Findings). As written, the 64-byte key of a partial record goes to `AES256::setKey`, which is not part of this model, and is saved, so later runs read back a 64-byte key that `Snapshot` cannot hold.
- WalletWidget.SaveEntryContent: whether the page is on screen is the input `pageShown`. What shows or hides the page, such as a tab switch, is not modelled.
- Strings.Compare: assumes the Qt 5.9 library; the source builds against 5.9 or later. From Qt 5.10 on, `compare` returns only the sign (-1, 0 or 1) when one string is a prefix of the other, which changes where `findNext` puts a prefix of an entry.
- Strings.LowerChar: only the Basic Latin and Latin-1 capitals move; `toLower` lowers the rest of Unicode too (U+0100 becomes U+0101, for example), which is not modelled.
- Strings.Lower: folds only what Strings.LowerChar folds.
- ComboBox.AlphaPos: compares texts lowered by Strings.Lower, so two texts that differ only in a capital outside Latin-1 may get different slots here and the same slot in the source.
- Assembly.Generate: class texts, the pool and the password are indexed by character, while the source indexes UTF-16 code units. The two agree for text inside the Basic Multilingual Plane.
- Assembly.Generate: requires `Generable`, because outside it the source divides by zero; `GenerateOrFail` is the total version.
- MainFrame.LoadPresets: uses the corrected parse (see Findings). As written, a complete record whose flag storage is non-zero would be dropped and deleted.
- MainFrame.LoadRecord: uses the corrected parse too, so it adds a set that the as-written parse would drop.
- MainFrame.HandleMinSpinnerChange: the spinners' ranges are taken to be wide enough for every value; `QSpinBox::setValue` would clamp a value outside the range set in the form file, which is not part of this model.
- MainFrame.WriteState: the form file's signal connections are not part of this model. The model takes `setEditText` to run no panel handler, and a toggle to signal when the state `checkState` reads back changes. `shouldResetPresetName` and widget enabling are left out.
- MainFrame.Decode: `QDataStream`'s byte encoding is abstracted to typed tokens. A token of the wrong kind counts as a failed read, where the real stream would misread the bytes.
- MainFrame.ParseOptionSet: the flag a complete read leaves is the stored value `uninit`. The source never assigns it, so its value is indeterminate.
- MainFrame.CheckState: a set's check states and texts are compared with the panel through `PanelFields`. The set's stored states are plain integers, and the panel's are what `checkState` reads back.
- MainFrame.SelectPreset: only the write of `handlePresetNameChange` is modelled. The combo's current index, its reload and the button enabling are left out.
- MainFrame.MoveToFront: the combo's current index after the remove and insert is not modelled. Nor is the `shouldResetPresetName` call.
- MainFrame.SetComboBoxItems: the current index restored from settings afterwards is not modelled.
- MainFrame.HandleGeneratePressed: uses the corrected `GenerateOrFail` (see Findings), because as written the source divides by zero there. Showing the password, inserting the history entry and the status text are left out.
- `handleDeletePresetPressed` has an empty body in the source.
- WalletWidget.Fields: new panes are created hidden. Their visibility is decided by the caller, not by the created widget.
- HistoryItem: `QVariant::toInt` of a text value is 0 here. The source would parse digits.
- HistoryItem.DisplayWidth: lengths of 100 and more, and negative lengths, widen the text. `DisplayRoundTrip` covers every length.
- Copy constructors and assignment operators are left out. So is `PasswordListItem::Data` with its constructors (one declared but not defined): no code of this model reads the struct.
- Copying a generator is disabled in the source, so each generator value has one owner. The model threads it explicitly.

## Findings

| source | as written | input that shows it | evidently intended | confidence | as-written member | corrected member |
|---|---|---|---|---|---|---|
| src/kde/WalletModel.cc:267-277 | `findNext` stops at the first entry comparing above the new one by more than 1 | adding "a" to ["b"]: compare("b","a") is 1, so "a" goes after "b" | stop at the first entry comparing above by more than 0, keeping the list sorted | not executed | WalletModel.AddEntryBreaksOrder | WalletModel.AddEntrySortedKeepsOrder |
| src/MainFrame.cc:76-99 | the parsing constructor sets `failedState` only when a read fails and never clears it after nine good reads | any complete nine-field record when the flag's uninitialised storage is non-zero | `failedState = false` after the ninth read | not executed | MainFrame.ParseOptionSetDropsComplete | MainFrame.ParsePresetRoundTrip |
| src/PasswordGenerator.cc:258-284 | `generate` takes `% item.chars.length()`, `% charPool.length()` and `% password.length()` with no check that the divisor is non-zero, and `handleGeneratePressed` (src/MainFrame.cc:319-331) calls it on whatever the panel holds | every toggle unchecked, or a checked class with an empty text and a positive minimum | refuse a request with an empty pool instead of dividing by zero | not executed | MainFrame.UncheckedPanelCannotGenerate | Assembly.GenerateOrFail |
| src/PasswordGenerator.cc:221-232 | a failed `commitTransaction` rewinds the file but not `cipherKey_`, and `initRandom` appends to whatever the key holds | a state file whose key reads in full but whose counter or block is cut off: the key becomes the stored 32 bytes followed by 32 fresh ones | a failed read falls back to a fresh 32-byte key, as for a missing file | not executed | Keystream.PartialRecordDoublesKey | Keystream.LoadState |
