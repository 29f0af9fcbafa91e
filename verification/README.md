# quick-scan-device-link, modelled in Dafny

A network-device inventory web app. Each device gets a QR code, and the code's
route parameter is a short hash of the device's MAC address. This project models
the logic behind the pages and components:

- the add-device dialog: MAC address validation, the keystroke formatter, the
  per-field error map built on submit, and the MAC field's change handler;
- the dashboard: the search-and-status filter, device registration with its
  `qrHash` derivation (`btoa`, keep `[a-zA-Z0-9]`, first 12), and the four
  summary counters;
- the scanner page: the `find` by hash and the page state once the lookup
  settles;
- the device card: its relative "last activity" label;
- the sample-data generator: random MAC addresses, names, models,
  manufacturers and the twelve-device loop.

Everything is pure functions over immutable datatypes, plus three methods
that mirror the generator: its two loops and one round of the device loop. Timestamps are integer milliseconds. The
clock reading and every `Math.random()` draw are parameters.

The comment on `qrHash` in `src/types/device.ts` calls it a unique hash. It is
not unique. Base64 maps three octets to four characters, so the first twelve
characters of the encoding depend only on the first nine characters of the
address. For addresses in either notation, `QrHash.QrHashCollisionIff` proves
that the hashes are equal exactly when the first nine characters agree: the
three vendor octets and the separator after each.
`Scanner.ScanShowsEarlierSamePrefix` shows what this does to the scanner page:
it shows the earlier listed device for such a pair.
`Scanner.ScanShowsEarlierSameVendor` gives a concrete pair with the hash
`MDA6MUI6NDQ6`. This is what the code does as written, so the model keeps it.

Modules follow the source: `MacAddress` and `AddDeviceForm`
(AddDeviceModal.tsx), `Dashboard`, `Scanner`, `DeviceCard`, and `MockCatalog`,
`MockNames` and `MockData` (mockData.ts). `Devices` holds the record types.
`QrHash` holds the hash derivation that Dashboard.tsx and mockData.ts share.
The supporting modules are:

- `Base64`: the encoding of section 4 of RFC 4648 as `btoa` performs it, with
  a reference decoder as its inverse;
- `Text`: `trim`, `includes`, ASCII case mapping and decimal rendering;
- `Seqs`: order-preserving filtering;
- `Wrappers`: `Option` and `Result`.

## Model

| member | source | states |
|---|---|---|
| MacAddress.MatchesGroupsIff | src/components/AddDeviceModal.tsx:31 | the anchored group pattern with `groups` repetitions accepts exactly the strings of length 3·groups+2 with a separator at every third position and hex digits elsewhere |
| MacAddress.ValidateMacAddressIff | src/components/AddDeviceModal.tsx:30-33 | `validateMacAddress` accepts a string iff it is 17 characters with `:` or `-` (mixed allowed) at positions 2, 5, 8, 11, 14 and hex digits of either case elsewhere |
| MacAddress.HexOnly | src/components/AddDeviceModal.tsx:37 | stripping keeps only hex digits and never lengthens the text; it removes nothing iff every character is a hex digit |
| MacAddress.HexOnlyKeepsExactlyHex | src/components/AddDeviceModal.tsx:37 | stripping keeps the input's hex digits in order, each as often as it occurs, and nothing else |
| MacAddress.Pairs | src/components/AddDeviceModal.tsx:39 | pairing adds one `:` between consecutive pairs: d digits give d + (d − 1)/2 characters, each a digit of the input or `:` |
| MacAddress.FormatMacAddress | src/components/AddDeviceModal.tsx:35-41 | the formatted value is at most 17 characters of hex digits and `:`, with `:` exactly at every third position and never last; its hex digits are the first twelve hex digits of the input; it is empty iff the input has no hex digit, and otherwise d digits give d + (d − 1)/2 characters |
| MacAddress.PairsColons | src/components/AddDeviceModal.tsx:39 | pairing hex digits puts a `:` at exactly the positions 2, 5, 8, … and nowhere else |
| MacAddress.PairsLast | src/components/AddDeviceModal.tsx:39 | the paired text ends with the input's last digit, never with a separator |
| MacAddress.HexOnlyOfPairs | src/components/AddDeviceModal.tsx:39 | joining pairs with `:` only inserts separators: stripping non-hex characters gives the digits back |
| MacAddress.FormatIdempotent | src/components/AddDeviceModal.tsx:35-41 | formatting an already formatted value leaves it unchanged |
| MacAddress.FormatValidatesIff | src/components/AddDeviceModal.tsx:35-41 | the formatted value, and its upper-cased form, pass the validator iff the input held at least twelve hex digits |
| MacAddress.PairsValidatesIff | src/components/AddDeviceModal.tsx:30-41 | at most twelve hex digits, paired by the formatter, pass the validator (upper-cased or not) iff there are exactly twelve |
| MacAddress.CanonicalIsFormatted | src/components/AddDeviceModal.tsx:35-41 | a valid address in colon notation is a fixed point of the formatter |
| MacAddress.HexOnlyToUpper | src/components/AddDeviceModal.tsx:79-80 | upper-casing then stripping non-hex characters equals stripping then upper-casing |
| MacAddress.ToUpperPairs | src/components/AddDeviceModal.tsx:80 | upper-casing the formatted value commutes with pairing |
| MacAddress.ToUpperColons | src/components/AddDeviceModal.tsx:80 | upper-casing leaves every `:` in place, adds none, and turns each hex digit into an upper-case one |
| AddDeviceForm.ValidAddressIsNotBlank | src/components/AddDeviceModal.tsx:50-53 | a valid address is never blank, so the MAC's "required" and "invalid format" branches never overlap |
| AddDeviceForm.ValidateForm | src/components/AddDeviceModal.tsx:46-55 | name, model, location and type have an entry iff blank after `trim`, with their "required" message; the MAC has an entry iff it is not a valid address: "required" when blank, the format message otherwise |
| AddDeviceForm.ErrorMessagesNonEmpty | src/components/AddDeviceModal.tsx:48-55 | every recorded error message is non-empty |
| AddDeviceForm.NoErrorsIffAcceptable | src/components/AddDeviceModal.tsx:57-60 | the error map is empty iff the four required fields are non-blank and the MAC is valid |
| AddDeviceForm.ValidationIgnoresDescriptionAndStatus | src/components/AddDeviceModal.tsx:46-55 | description and status never affect the error map |
| AddDeviceForm.Submit | src/components/AddDeviceModal.tsx:43-76 | `onAdd` receives the form as typed iff it is acceptable, after which the form resets, errors clear and the dialog closes; otherwise the form is kept, the new non-empty error map replaces the old one, and nothing is added |
| AddDeviceForm.AcceptedDraftHasValidMac | src/components/AddDeviceModal.tsx:51-62 | a draft handed to `onAdd` always carries a valid MAC address |
| AddDeviceForm.DraftOf | src/components/AddDeviceModal.tsx:62 | the draft copies name, model, MAC address, location, status and type from the form unchanged, has no manufacturer and the description as typed; so the draft of an acceptable form carries a valid MAC and non-blank name, model, location and type |
| AddDeviceForm.NormalizeMac | src/components/AddDeviceModal.tsx:79-80 | the stored MAC is at most 17 upper-case hex digits and colons, a colon exactly at every third position and never last; its hex digits are the upper-cased first twelve hex digits of the typed text; it is valid iff the typed text held at least twelve |
| AddDeviceForm.NormalizeMacIdempotent | src/components/AddDeviceModal.tsx:79-80 | normalizing a stored value again leaves it unchanged |
| AddDeviceForm.ChangeMacAddress | src/components/AddDeviceModal.tsx:78-84 | only the MAC field changes; a MAC error message becomes `""` with its key kept; every other error is untouched |
| AddDeviceForm.ClearError | src/components/AddDeviceModal.tsx:81-83 | a non-empty message of the edited field becomes `""` with its key kept; absent or empty messages and every other field's message are untouched |
| AddDeviceForm.WithField | src/components/AddDeviceModal.tsx:103 | the spread assignment sets exactly the named field; every other field, status and description keep their value |
| AddDeviceForm.ChangeField | src/components/AddDeviceModal.tsx:102-164 | the name, model and location inputs and the type select store the value as given and the MAC input its normalized form; only that field changes; its non-empty message becomes `""`, key kept; every other message is untouched |
| AddDeviceForm.ChangedFieldRequiredIff | src/components/AddDeviceModal.tsx:102-104 | after editing the name, model, location or type, submission reports that field iff the new value is blank |
| AddDeviceForm.ChangeStatus | src/components/AddDeviceModal.tsx:189-191 | the status select sets only the status; the error map is untouched |
| AddDeviceForm.ChangeDescription | src/components/AddDeviceModal.tsx:208 | the description input sets only the description; the error map is untouched |
| AddDeviceForm.StatusAndDescriptionKeepValidation | src/components/AddDeviceModal.tsx:189-208 | changing the status or the description never changes what a submission reports |
| AddDeviceForm.MacErrorAfterChange | src/components/AddDeviceModal.tsx:78-84 | after a change event, submit reports a MAC error iff fewer than twelve hex digits were typed, and reports "required" only when none were |
| Text.TrimEmptyIffBlank | src/components/AddDeviceModal.tsx:48 | `trim()` yields the empty string iff every character is ECMAScript whitespace |
| Text.Trim | src/components/AddDeviceModal.tsx:48 | the trimmed text starts and ends with a non-whitespace character, and is empty iff every character is whitespace |
| Text.TrimIsSlice | src/components/AddDeviceModal.tsx:48 | the trimmed text is the slice of the input that starts where the leading whitespace ends |
| Text.TrimDropsOnlyWhitespace | src/components/AddDeviceModal.tsx:48 | only whitespace lies before and after that slice |
| Text.Includes | src/pages/Dashboard.tsx:34-36 | `includes` finds the term iff it occurs at some position |
| Text.DecimalRoundTrip | src/utils/mockData.ts:44 | reading back `i.toString()` gives `i` |
| Text.IntToDecimalInjective | src/pages/Dashboard.tsx:49 | distinct clock readings render as distinct ids |
| Text.IntToDecimal | src/pages/Dashboard.tsx:49 | `${i}` is decimal digits with a leading `-` exactly for a negative number, no leading zero except for 0 itself, and reads back to the number |
| Base64.DecodeEncode | src/pages/Dashboard.tsx:50 | the reference decoder undoes the encoding `btoa` performs |
| Base64.EncodeAppend | src/pages/Dashboard.tsx:50 | encoding splits at any boundary that is a multiple of three octets |
| Base64.Encode | src/pages/Dashboard.tsx:50 | the encoding has four characters per started group of three octets |
| Base64.EncodeDecode | src/pages/Dashboard.tsx:50 | any text the decoder accepts is the encoding of the octets it yields, so each octet string has one accepted text |
| Base64.Btoa | src/pages/Dashboard.tsx:50 | `btoa` fails exactly on text with a code unit above 0xFF; otherwise its output decodes to the text's octets, and `BtoaUnique` shows no other text does |
| Base64.BtoaUnique | src/pages/Dashboard.tsx:50 | a text that decodes to the octets of a `btoa` input is exactly `btoa`'s output |
| QrHash.DeriveQrHash | src/pages/Dashboard.tsx:50 | the hash fails iff `btoa` throws; otherwise it is at most twelve alphanumeric characters |
| QrHash.QrHashIsEncodedPrefix | src/utils/mockData.ts:50 | for MAC text of at least nine characters, the hash is exactly the base64 of the first nine characters: twelve characters with nothing stripped |
| QrHash.QrHashOfShortMac | src/pages/Dashboard.tsx:50 | for MAC text shorter than nine characters, the hash is the whole encoding minus its `=` padding |
| QrHash.EncodeMacBytes | src/pages/Dashboard.tsx:50 | the encoding of MAC characters contains no `+` or `/`; only its `=` padding is stripped |
| QrHash.QrHashCollisionIff | src/types/device.ts:9 | two MAC texts of at least nine characters get the same hash iff their first nine characters agree, so the hash is not unique |
| QrHash.SameVendorSameHash | src/types/device.ts:9 | `00:1B:44:11:3A:B7` and `00:1B:44:AA:BB:CC` both hash to `MDA6MUI6NDQ6` |
| Dashboard.FilterDevices | src/pages/Dashboard.tsx:32-44 | the shown list is an order-preserving sublist of the devices, each passing both the search and the status test |
| Dashboard.MatchesSearch | src/pages/Dashboard.tsx:33-37 | the empty search matches every device; a term longer than the name, the MAC address and the location matches none |
| Dashboard.FilterIsOnePass | src/pages/Dashboard.tsx:33-41 | the search pass followed by the status pass equals one filter by the conjunction |
| Dashboard.FilterContents | src/pages/Dashboard.tsx:33-41 | a device is shown iff it is listed and passes both tests, and exactly as many times as it is listed |
| Dashboard.EmptySearchShowsAll | src/pages/Dashboard.tsx:33-41 | an empty search with `'all'` shows every device, in order |
| Dashboard.FilterIdempotent | src/pages/Dashboard.tsx:32-44 | filtering the shown list again changes nothing |
| Dashboard.StatusViewsPartition | src/pages/Dashboard.tsx:39-41 | the online and offline views together hold exactly the `'all'` view, as multisets and in count |
| Dashboard.StatusViewOfAll | src/pages/Dashboard.tsx:39-41 | with an empty search, the view of one status is exactly the devices with that status, in order |
| Dashboard.SearchIgnoresCase | src/pages/Dashboard.tsx:34-36 | upper-casing the ASCII letters of the search term does not change the shown list |
| Dashboard.SearchFindsLocation | src/pages/Dashboard.tsx:36 | the search "recep" finds any device located in "Recepção" |
| Dashboard.AddDevice | src/pages/Dashboard.tsx:46-54 | registration succeeds iff `btoa` accepts the MAC; the list then grows by one device appended last, the earlier ones unchanged; its id is the clock in decimal, its hash the derived one, its last activity now, every other field copied from the draft |
| Dashboard.AddDevicePreservesHashes | src/pages/Dashboard.tsx:50-53 | if every listed hash is derived from its MAC, that still holds after registration |
| Dashboard.AddAcceptedDraft | src/pages/Dashboard.tsx:50 | a draft the dialog accepted always registers, and its hash is the base64 of its first nine characters |
| Dashboard.ActiveWithinWeekIff | src/pages/Dashboard.tsx:60-62 | `daysSinceActivity <= 7` with exact division holds iff at most 7·86400000 ms have elapsed, a future activity included |
| Dashboard.CountStats | src/pages/Dashboard.tsx:56-64 | total is the list length; online and offline are the sizes of the dashboard's online and offline views with an empty search, and add up to the total; active is at most the total |
| Dashboard.ActiveCountIsWeekWindow | src/pages/Dashboard.tsx:60-63 | the active counter is the number of devices whose last activity is at most 7·86400000 ms before now |
| Dashboard.StatsAfterAdd | src/pages/Dashboard.tsx:56-64 | registering raises the total by one, the counter of the new device's status by one, and active by one |
| Scanner.FirstMatchIndex | src/pages/DeviceScanner.tsx:35 | the position `find` stops at is the first device carrying the hash, or none when none does |
| Scanner.FindByHash | src/pages/DeviceScanner.tsx:35 | a device is found iff some listed device carries the hash; the one found carries it and is the earliest such device |
| Scanner.ResolveScan | src/pages/DeviceScanner.tsx:31-55 | loading always ends; an absent or empty parameter changes nothing else; otherwise the shown device is the `find` result, a found device sets `scanned`, and a miss keeps the previous `scanned` |
| Scanner.FreshScanRegisteredIffFound | src/pages/DeviceScanner.tsx:37-54 | on a fresh page, the scan is registered iff a device is shown, iff the parameter is non-empty and some device carries it |
| Scanner.ScanFindsSamePrefix | src/pages/DeviceScanner.tsx:35 | scanning a listed device's hash always finds a device, listed no later, whose address shares its first nine characters |
| Scanner.ScanShowsEarlierSamePrefix | src/pages/DeviceScanner.tsx:35 | of two listed devices whose valid addresses share nine characters, scanning the second one's hash shows the first |
| Scanner.ScanShowsEarlierSameVendor | src/types/device.ts:9 | the device `00:1B:44:AA:BB:CC` scans as `00:1B:44:11:3A:B7` listed before it; both carry `MDA6MUI6NDQ6` |
| DeviceCard.DaysSince | src/components/DeviceCard.tsx:19 | the day count is the unique integer whose day span brackets the elapsed milliseconds, i.e. floor division |
| DeviceCard.LastActivityLabel | src/components/DeviceCard.tsx:16-24 | "Hoje" iff less than one day elapsed (not negative), "Ontem" iff one to two days; otherwise the day count followed by " dias atrás", negative counts included |
| DeviceCard.DaysAgoInjective | src/components/DeviceCard.tsx:23 | the count reads back uniquely from "<n> dias atrás" |
| DeviceCard.LabelDeterminesDays | src/components/DeviceCard.tsx:16-24 | two activities get the same label iff they lie the same number of whole days back |
| DeviceCard.ActiveWithinSevenDays | src/components/DeviceCard.tsx:19 | a device the dashboard counts as active (and not in the future) shows a day count from 0 to 7 |
| MockCatalog.RandomIndex | src/utils/mockData.ts:33 | `Math.floor(Math.random() * n)` is an index below n, the floor of draw·n |
| MockCatalog.ModelTableKeys | src/utils/mockData.ts:64-72 | the models record has an entry exactly for the seven device types |
| MockCatalog.ModelTableEntries | src/utils/mockData.ts:64-72 | each models entry lists four models, none of them the generic fallback |
| MockCatalog.ManufacturerTableKeys | src/utils/mockData.ts:79-87 | the manufacturers record has an entry exactly for the seven device types |
| MockCatalog.ManufacturerTableEntries | src/utils/mockData.ts:79-87 | each manufacturers entry lists four makers, none of them the generic fallback |
| MockCatalog.GetModelByType | src/utils/mockData.ts:63-76 | a known type gets one of its listed models, never the generic one; any other type gets "Modelo Genérico" |
| MockCatalog.GetManufacturerByType | src/utils/mockData.ts:78-91 | a known type gets one of its listed makers, never the generic one; any other type gets "Fabricante Genérico" |
| MockNames.ReplaceFirst | src/utils/mockData.ts:45 | a one-character `replace` keeps the length, changes only an occurrence of the pattern, and is the identity when the pattern is absent |
| MockNames.ReplaceFirstAt | src/utils/mockData.ts:45 | the character replaced is the first occurrence of the pattern |
| MockNames.ReplaceFirstHitsFirst | src/utils/mockData.ts:45 | the first occurrence of the pattern is always replaced |
| MockNames.ReplaceFirstOnlyFirst | src/utils/mockData.ts:45 | a position that changes holds the first occurrence of the pattern |
| MockNames.TypeHeading | src/utils/mockData.ts:45 | the heading keeps the type's length and upper-cases its first character; the first `-` after it becomes a space, and no other later character changes |
| MockNames.DisplayName | src/utils/mockData.ts:45 | the name is the heading, a space, and the device number in decimal |
| MockNames.DisplayNameNumberInjective | src/utils/mockData.ts:45 | devices with different numbers get different names, whatever their types |
| MockData.GenerateMacAddress | src/utils/mockData.ts:19-28 | the loop builds the address six rounds of two hex draws produce: 17 characters, `:` at every third position, upper-case hex digits elsewhere |
| MockData.GeneratedAddressIsValid | src/utils/mockData.ts:19-28 | a generated address passes the add dialog's validator |
| MockData.GeneratedAddressIsCanonical | src/utils/mockData.ts:19-28 | a generated address is a fixed point of the dialog's formatter and normalizer |
| MockData.MockDeviceFrom | src/utils/mockData.ts:33-55 | a round's device has id `i`; a type from the seven and the name built from it and `i`; a model and a manufacturer from that type's lists; a location from the list and the description naming both; the generated address and its derived hash; status online iff the draw exceeds 0.3; a last activity a whole number of days, 0 to 29, back |
| MockData.DaysBack | src/utils/mockData.ts:39-41 | going back `daysAgo` days moves the date back exactly `daysAgo` days of 86400000 ms, a whole number fewer than thirty |
| MockData.SampleActivityLabel | src/utils/mockData.ts:39-41 | a sample device's card counts exactly the drawn `daysAgo` days: "Hoje" for 0, "Ontem" for 1, otherwise "<daysAgo> dias atrás" |
| MockData.PicksAreListed | src/utils/mockData.ts:46-54 | for a listed type, the model and manufacturer draws pick entries of that type's lists |
| MockData.MockDevice | src/utils/mockData.ts:32-55 | the `i`-th device has id `i`, the address six rounds of hex draws produce and its derived hash, a listed type and location with the name and description built from them, a model and a manufacturer from that type's lists, status online iff the draw exceeds 0.3, and activity a whole number of days, 0 to 29, back |
| MockData.MockDeviceAddress | src/utils/mockData.ts:47-50 | a sample device's address is valid and its hash is derived from it |
| MockData.MockDeviceCatalog | src/utils/mockData.ts:46-54 | a sample device's model and manufacturer come from its type's lists, never from the fallback |
| MockData.BuildMockDevice | src/utils/mockData.ts:33-57 | one loop round, address generation included, builds exactly `MockDevice(i, …)` |
| MockData.NumberedIdsDistinct | src/utils/mockData.ts:44 | devices numbered in order carry distinct ids |
| MockData.GenerateMockDevices | src/utils/mockData.ts:30-60 | twelve devices numbered 1 to 12 in order, distinct ids, valid addresses, hashes derived from them, each active within the last thirty days |

## Left out

- Rendering (JSX, dialogs, badges, icons, the sidebar) the page `Index`, and the components `QRCodeModal` and `DeviceDetailModal`, including the QR URL they show: presentation only.
- The scanner's one-second `setTimeout` and its `console.log`: the model is the state after the timer fires. A page that unmounts before then is not modelled.
- The scanner looks up a freshly generated sample list. The model takes that list as a parameter, because its contents are random.
- `Date.now()` and `new Date()` are parameters (integer milliseconds). `Intl.DateTimeFormat` output is not modelled.
- `setDate(getDate() - daysAgo)` is modelled as subtracting `daysAgo` whole days of 86 400 000 ms. Daylight-saving shifts are ignored.
- `Math.random()` draws are real parameters in [0, 1), and real arithmetic is exact. Floating-point rounding is not modelled.
- `toLowerCase`/`toUpperCase` map ASCII letters only; the full Unicode case mapping of other letters (such as `Ç` in a location) is not modelled.
- Lookups of `models[type]` and `manufacturers[type]` use plain keys. Inherited `Object.prototype` names such as "constructor" are not modelled; the loop only ever passes the seven listed types.
- The initial effect that loads the sample list into the dashboard is not modelled separately. It is `GenerateMockDevices` with an unfiltered view, and `EmptySearchShowsAll` covers that view.
- The `AccessLog` and `User` types are declared but unused by the core.
- DeviceCard.ActiveWithinSevenDays: covers only activities in the past; for a future activity both the counter and the label accept it, and the label shows a negative count.
