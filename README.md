# gdb-dashboard-svd, modelled in Dafny

`gdb-dashboard-svd.py` is a module for the gdb dashboard. It loads CMSIS-SVD
descriptions of a microcontroller (device → peripherals → registers → fields).
It then lets the user watch memory-mapped registers by name. Each refresh
prints one line per watched register, with the register's address and its
current value. A value that changed since the last refresh is highlighted.

The model follows the two classes of the source:

- `SVDDevicesHelper` becomes module `Catalog` (file `catalog.dfy`):
  - The device list is the `devices` field of class `DevicesHelper`, which
    `Load` replaces in a loop.
  - The lookups (`get_peripheral`, `get_register`), `devices_name` and
    `complete` are functions of that list.
  - `get_addr_and_value` is in module `Render` (`render.dfy`).
- `SVD` becomes class `Dashboard.Svd` (`dashboard.dfy`):
  - It holds the catalog. The source inherits from the helper instead.
  - It holds the watch list `registers`, a sequence of (peripheral, register,
    last value) entries.
  - Its methods are `Load`, `Add`, `Clear` and `Lines`, and its function is
    `Label`.
  - `Valid()` is the watch-list invariant: no pair is watched twice, and
    every entry's names resolve to the entry's own objects in the loaded
    tree.
- The description tree (`tree.dfy`):
  - Peripherals and registers are classes with constant fields, so the
    source's `is` comparisons are reference equality.
  - Devices and fields are values.
- The Python string behaviour that the module relies on (`str.split(' ')`,
  `join`, `startswith`, right alignment) is in `text.dfy`.
- The `0x`-prefixed, zero-padded hexadecimal text is in `hex.dfy`.

The debugger, and the SVD parser behind `SVDParser.for_xml_file`, are
parameters:

- `parse: string -> Option<Device>` yields `None` when a file gives no device.
- `pointerBytes` is the size of a pointer of the selected frame's
  architecture.
- `readMem(address, bits)` yields `None` when dereferencing the register
  raises.
- `showPointer(v)` is gdb's text for `v` cast to that pointer type.

`scenarios.dfy` checks the model on small trees:

- the assertions of `test_sample.py` (`TestSvd`);
- a load that stops part-way;
- a 32-bit full-width register shown as an address;
- hexadecimal padding;
- one-word completion;
- a repeated `add`;
- two refreshes in a row.

Facts about the code that shape the model:

- A register is found by its `name` only.
- The module has no commands besides `load`, `add` and `clear`, and no
  format options. `add` accepts any register the lookups find.
- Hexadecimal values get at least `int(size / 4)` digits, zero-padded. A
  value with more digits is shown whole.
- `load` keeps the devices parsed before a failing file.
- Completing a register of an unknown peripheral raises, because `None` has
  no `registers`.
- One-word completion filters peripheral names by the word being completed,
  so an empty word offers every peripheral.

## Model

| member | source | states |
|---|---|---|
| Catalog.DevicesHelper.constructor | gdb-dashboard-svd.py:7-9 | a new helper has no devices |
| Catalog.DevicesHelper.Load | gdb-dashboard-svd.py:11-19 | the list is cleared, then holds exactly the devices of the longest prefix of the files that parse; the outcome is `unable to load f` for the first file `f` that does not parse, success otherwise |
| Catalog.LoadedPrefix | gdb-dashboard-svd.py:14-19 | the loaded devices are in file order, each the parse of its file, and the file after them (if any) does not parse |
| Catalog.LoadedPrefixUnique | gdb-dashboard-svd.py:14-19 | those properties determine the loaded list uniquely |
| Catalog.LoadResult | gdb-dashboard-svd.py:14-19 | the load succeeds exactly when every file parses; a failure names the file right after the loaded prefix |
| Catalog.DevicesName | gdb-dashboard-svd.py:21-22 | one name per loaded device, in load order |
| Catalog.FindPeripheral | gdb-dashboard-svd.py:26-28 | absent exactly when no peripheral of the device has the name; otherwise the first one that has it |
| Catalog.GetPeripheral | gdb-dashboard-svd.py:24-29 | absent exactly when no peripheral of any loaded device has the name; otherwise the first such peripheral, devices in load order |
| Catalog.FindRegister | gdb-dashboard-svd.py:33-36 | absent exactly when no register has the name; otherwise the first register that has it |
| Catalog.GetRegister | gdb-dashboard-svd.py:31-36 | the same for the registers of a peripheral |
| Catalog.PeripheralNames | gdb-dashboard-svd.py:72 | the names of the peripherals, position by position |
| Catalog.RegisterNames | gdb-dashboard-svd.py:72 | the names of the registers, position by position |
| Catalog.Complete | gdb-dashboard-svd.py:60-72 | without a space: the candidates are exactly the peripheral names starting with the word; one space: the registers of the named peripheral that start with the word, or the error of an unknown peripheral; two or more spaces: no completion |
| Catalog.CompleteInDeviceOrder | gdb-dashboard-svd.py:64-66 | one-word candidates come device by device in load order, each device's peripherals in their own order |
| Catalog.NamesInDeviceOrder | gdb-dashboard-svd.py:65-72 | filtering the concatenated peripheral names is filtering each device's names in turn |
| Catalog.CompleteSecondWord | gdb-dashboard-svd.py:67-72 | completing `<peripheral> <word>` offers exactly that peripheral's register names starting with the word, in register order, or raises for an unknown peripheral |
| Render.GetAddrAndValue | gdb-dashboard-svd.py:38-58 | the address text is the pointer `base + offset`; a failed read shows `<unavailable>`; a pointer-wide register with no field or one full-width field shows the word as a pointer; any other shows `0x` and hexadecimal digits whose value is the word read, at least `size / 4` of them, and never `<unavailable>` |
| Hex.ToHex | gdb-dashboard-svd.py:54 | lowercase hexadecimal digits without a leading zero; a value below 16, 0 included, is a single digit |
| Hex.HexRoundTrip | gdb-dashboard-svd.py:54 | the digits read back as the value |
| Hex.HexText | gdb-dashboard-svd.py:53-54 | `0x`, then digits reading back as the value, as many as the value needs but at least `int(size / 4)` |
| Hex.ZeroPadded | gdb-dashboard-svd.py:53-54 | the `0>` fill keeps a digit string's value |
| Hex.HexTextWidth | gdb-dashboard-svd.py:53-54 | a value that fits a register whose size is a multiple of 4 gets exactly `size / 4` digits |
| Hex.HexOfDigit | gdb-dashboard-svd.py:53-54 | a value below 16 shows `0x`, `int(size / 4) - 1` zeros and its one digit |
| Text.Split | gdb-dashboard-svd.py:61 | Python's `split(' ')`: one more piece than separators, no piece holds the separator, and joining the pieces gives the text back |
| Text.SplitCons | gdb-dashboard-svd.py:116 | a first word followed by a separator is the first piece |
| Text.SplitNoSeparator | gdb-dashboard-svd.py:116 | a text without the separator is a single piece |
| Text.SplitJoin | gdb-dashboard-svd.py:86 | joining names without the separator and splitting again gives the names back |
| Text.PadLeft | gdb-dashboard-svd.py:101 | right alignment: the text is kept whole at the end, preceded by fill characters up to the width |
| Text.PrefixFilter | gdb-dashboard-svd.py:72 | the kept names are exactly those starting with the word |
| Text.PrefixFilterConcat | gdb-dashboard-svd.py:72 | the filter keeps order |
| Text.PrefixFilterEmptyWord | gdb-dashboard-svd.py:72 | the empty word keeps every name |
| Dashboard.Svd.constructor | gdb-dashboard-svd.py:77-79 | no device and no watched register |
| Dashboard.Svd.Label | gdb-dashboard-svd.py:81-86 | `SVD` exactly when nothing is loaded; otherwise `SVD [...]`, whose bracketed text split at commas gives the device names (when no name holds a comma) |
| Dashboard.AlignWidth | gdb-dashboard-svd.py:92 | the alignment width is `(term_width - 4 * len(name)) / 4` rounded toward zero, non-negative exactly when `4 * len < term_width + 4` |
| Dashboard.AlignWidthTruncates | gdb-dashboard-svd.py:92 | that width is `int()` of the real `term_width / 4 - len(name)`: truncation toward zero |
| Dashboard.RefreshStoresShown | gdb-dashboard-svd.py:95-99 | after a refresh an entry keeps its pair and stores exactly the text just shown |
| Dashboard.SecondRefreshUnchanged | gdb-dashboard-svd.py:95-99 | refreshing again against the same memory shows the same text and flags a change only when that text is empty |
| Dashboard.Svd.Lines | gdb-dashboard-svd.py:88-105 | one line per entry in list order: the aligned name, the address and the value, flagged as changed when the stored value is unset, empty or different; afterwards every entry stores the value shown, with pairs and order unchanged and the invariant kept |
| Dashboard.Svd.RefreshEntry | gdb-dashboard-svd.py:92-104 | one loop step: the returned line is the entry's line, and only that entry changes, to its refreshed form |
| Dashboard.RefreshedStep | gdb-dashboard-svd.py:91-104 | one more refreshed entry extends the refreshed prefix of the list and of the output by one |
| Dashboard.SamePairsKeepValid | gdb-dashboard-svd.py:98 | replacing stored values keeps the watch list duplicate-free and resolvable |
| Dashboard.Svd.Load | gdb-dashboard-svd.py:107-112 | an empty argument fails with `No file specified` and changes nothing; otherwise the watch list is cleared and the space-separated files are loaded |
| Dashboard.Svd.IsWatched | gdb-dashboard-svd.py:128-130 | true exactly when some entry holds this peripheral and register, by identity |
| Dashboard.Svd.Add | gdb-dashboard-svd.py:114-132 | not exactly two words: usage error; unknown peripheral or register: the matching error; a pair already watched (by identity): `already registered`; otherwise the pair is appended with no value; every error leaves the list as it was, and the invariant is kept |
| Dashboard.NoDuplicatesAppend | gdb-dashboard-svd.py:128-132 | appending a pair not yet watched keeps the list free of duplicates |
| Dashboard.IdentityIsByName | gdb-dashboard-svd.py:128-129 | for resolvable entries, comparing by identity is comparing peripheral and register names |
| Dashboard.AllResolveAppend | gdb-dashboard-svd.py:132 | appending a resolved pair keeps every entry resolvable |
| Dashboard.Svd.Clear | gdb-dashboard-svd.py:134-135 | the watch list becomes empty |
| Scenarios.HexOfByte | gdb-dashboard-svd.py:53-54 | an 8-bit register holding 3 shows `0x03` |
| Scenarios.HexNotTruncated | gdb-dashboard-svd.py:53-54 | the format expression `f'0x{31:0>1x}'` (value 31, width `int(4 / 4)`) gives `0x1f`: the width pads and never truncates |
| Scenarios.AddressOrHex | gdb-dashboard-svd.py:46-54 | a 32-bit register with one full-width field holding 1 shows as a pointer on a 32-bit target and as `0x00000001` (seven zeros, then 1) on a 64-bit one |
| Scenarios.CompleteOneWord | gdb-dashboard-svd.py:64-72 | with TIMER0 and UART0 in one device and TIMER1 in the next, a word both timers start with completes to TIMER0, TIMER1 |
| Scenarios.OneWordCandidates | gdb-dashboard-svd.py:65-72 | the per-device candidates of that catalog |
| Scenarios.CompleteEmptyWord | gdb-dashboard-svd.py:72 | an empty word completes to every peripheral name |
| Scenarios.AddTwice | gdb-dashboard-svd.py:128-132 | a request that `add` accepted is refused as already registered when repeated; the list grows by one exactly when the first call passed |
| Scenarios.RefreshTwice | gdb-dashboard-svd.py:95-99 | two refreshes against the same memory show the same values, the second flagging only empty texts |

## Left out

- Debugger calls: reading memory, the architecture's pointer type and gdb's
  text for a pointer are parameters (`readMem`, `pointerBytes`,
  `showPointer`). Their text is not modelled.
- The SVD parser is the parameter `parse`. An exception it raises and a
  `None` device both count as a file that does not parse. Both raise the same
  `unable to load` in the model. In the source, a parser exception would
  escape with its own message.
- Terminal styling (`ansi`, `R.style_low`, `R.style_selected_1`): a line is
  its plain text, its value text and the changed flag.
- `term_height` and `style_changed` are not modelled, because the code never
  reads them.
- `commands` and `attributes` are not modelled. They are the dashboard's
  registration tables, not behaviour.
- `clear`'s unused argument is not modelled.
- Dashboard.Svd.Lines requires every alignment width to be non-negative. With
  a negative width, Python refuses the format `>-n` with a ValueError, and
  that path is not modelled.
- Registers without a size are not modelled: a size is always a natural
  number here. In the source, `integer_type(None, False)` at line 41
  raises a TypeError outside the `try`, so `lines()` aborts.
- Render.GetAddrAndValue: always renders an address and a value. Lines 40-43
  of the source run outside the `try`. They raise, and abort `lines()`,
  when no frame is selected, or when the register size is one that gdb's
  `Architecture.integer_type` refuses (anything other than 0, 8, 16, 24,
  32, 64 or 128 bits). The model has no such error path.
- Exceptions become error values (`Outcome`, `Completion`). Only the message
  text of each error is kept (`Message()`).
