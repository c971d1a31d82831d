# Paytm ABRTS QR deeplinks, modelled in Dafny

This models three small scripts that make QR-code deeplinks for the bus stations of the
Ahmedabad BRTS in the Paytm city-bus mini app.

- `deeplink_automate.py` is the batch generator. For every station id from 1 to 210 it writes
  one table row: the id zero-padded to four digits, a generic name `Station <id>` and the
  deeplink. The deeplink packs a fixed three-key payload (`path`, `params` with the merchant
  city key and the source id, `sparams` with three `false` flags) in three steps: compact JSON,
  then UTF-8, then Base64. The result goes into the `data` parameter of a
  `paytmmp://mini-app?aId=…` URI.
- `deeplink_gen_abrts_paytm.py` is the interactive generator. It reads one id and one name,
  both trimmed. A blank id is rejected with a JSON error message and exit status 1. A blank name
  becomes `Unnamed Station`. Otherwise it emits one display record (name, text, size 512,
  level Q).
- `csv_to_json.py` converts the generated table into display records (size 256, level L). It
  skips every row whose trimmed deeplink is empty.

## Modules

- `Wrappers`: the `Option` datatype.
- `Bytes`: the `byte` type.
- `Strip`: Python's `str.strip()` over the characters `str.isspace` accepts.
- `ZeroPad`: the `{i:04d}` format, and a decimal reader used as its inverse to state round trips.
- `Utf8`: the UTF-8 encoder, and a strict decoder used as its inverse to state round trips.
- `Base64`: the RFC 4648 (section 4) encoder, and a strict decoder used as its inverse to state
  round trips.
- `Json`: the compact serialiser of `json.dumps(…, separators=(',', ':'))` with its default
  `ensure_ascii` escaping, and a strict parser used as its inverse to state round trips.
- `Deeplink`: the shared `build_deeplink` for any aId, city key and path, and the extraction of
  the source id from a deeplink, used as its inverse to state round trips.
- `Records`: the display record and the name rule shared by two scripts.
- `DeeplinkAutomate`, `DeeplinkGenAbrtsPaytm` and `CsvToJson`: the three scripts.
- `Pipeline`: the generated table read back the way `csv.DictReader` reads it, then converted.

The loops of the batch generator and of the converter are methods with `while` loops. Each is
proved equal to a specification function (`DataRows`, `Converted`), and the lemmas are about
those functions.

## Model

| member | source | states |
|---|---|---|
| Deeplink.Payload | public/deeplink_automate.py:11-22 | the payload dict as a JSON object whose members keep the dict's insertion order; its keys and its `sourceId` are stated by PayloadKeys and PayloadLookup |
| Deeplink.PayloadText | public/deeplink_automate.py:23 | the compact JSON text of the payload; its exact characters are stated by PayloadTextExact, and that it parses back by PayloadDecodes |
| Deeplink.EncodedPayload | public/deeplink_automate.py:24 | Base64 of the UTF-8 bytes of the payload text; its length by EncodedLength and its decoding by PayloadDecodes |
| Deeplink.Build | public/deeplink_automate.py:10-25 | the deeplink `build_deeplink` returns; its layout by BuildSplit, its inverse by SourceIdRoundTrip, injectivity by BuildInjective |
| Json.Serialize | public/deeplink_automate.py:23 | `json.dumps` with `separators=(',', ':')` and ASCII-only escaping; its inverse by ParseSerialize, its character set by SerializePrintable |
| Base64.Encode | public/deeplink_automate.py:24 | `base64.b64encode`, three bytes to four characters with `=` padding; its length by EncodeLength, its alphabet by EncodeAlphabet, its inverse by DecodeIff |
| Utf8.Encode | public/deeplink_automate.py:24 | `str.encode("utf-8")`: never fewer bytes than characters; its inverse by DecodeEncode and EncodeDecode |
| ZeroPad.Format04 | public/deeplink_automate.py:43 | `f"{i:04d}"`, including the sign of a negative id; its shape by Format04Shape and Format04Width, its inverse by Format04RoundTrip |
| Strip.Strip | public/csv_to_json.py:13 | `str.strip()`; what it removes by StripSpec, its empty result by StripEmptyIff |
| DeeplinkAutomate.BuildDeeplink | public/deeplink_automate.py:10-25 | the batch script's `build_deeplink` with its constants; its inverse by BuildDeeplinkRecovers |
| DeeplinkAutomate.DataRow | public/deeplink_automate.py:43-46 | the three fields written for station `i`: padded id, name, deeplink |
| CsvToJson.Converted | public/csv_to_json.py:30-38 | the records the loop collects: one per row whose trimmed deeplink is not empty, in order; stated member by member by the Kept lemmas |
| Deeplink.PayloadTextExact | public/deeplink_automate.py:11-23 | the JSON text is, token by token, `{"path":…,"params":{"merchantCityKey":…,"sourceId":…},"sparams":{"pullRefresh":false,"canPullDown":false,"showTitleBar":false}}`: keys in insertion order, no spaces after the separators |
| Deeplink.KeysPlain | public/deeplink_automate.py:11-22 | every payload key is written as itself between quotes, with no escapes |
| Deeplink.BuildSplit | public/deeplink_automate.py:25 | the deeplink is the scheme prefix with the aId and `&data=`, followed by exactly the Base64 payload, so cutting at the prefix's length gives both parts back |
| Deeplink.PayloadKeys | public/deeplink_automate.py:11-22 | the payload has exactly the keys `path`, `params`, `sparams` in that order, `params` exactly `merchantCityKey`, `sourceId`, and `sparams` exactly `pullRefresh`, `canPullDown`, `showTitleBar` |
| Deeplink.PayloadLookup | public/deeplink_automate.py:13-16 | the payload's `params` object maps `sourceId` to the given id |
| Deeplink.PayloadDecodes | public/deeplink_automate.py:23-24 | the `data` text Base64-decodes to the UTF-8 bytes of the JSON text, those bytes decode to the text, and the text parses back to the payload object |
| Deeplink.SourceIdRoundTrip | public/deeplink_automate.py:10-25 | for every source id and configuration, reading the deeplink back gives exactly that id |
| Deeplink.BuildInjective | public/deeplink_automate.py:10-25 | two ids that give the same deeplink are equal |
| Deeplink.EncodedLength | public/deeplink_automate.py:23-24 | the JSON text is never empty, its UTF-8 form is as long as the text, and the `data` text has 4·⌈n/3⌉ characters |
| Deeplink.PayloadAscii | public/deeplink_automate.py:23-24 | with the ASCII-only escaping, UTF-8 adds no bytes to the JSON text |
| Deeplink.BuildStripped | public/deeplink_automate.py:25 | a deeplink has no surrounding whitespace, so the converter's `.strip()` keeps it whole |
| Json.ParseSerialize | public/deeplink_automate.py:23 | parsing the serialised text of any JSON value gives that value back |
| Json.SerializePrintable | public/deeplink_automate.py:23 | the serialised text uses only printable ASCII (`ensure_ascii`) |
| Json.EscapeStringRoundTrip | public/deeplink_automate.py:23 | the escaped body of any string reads back as that string, and the reading stops at the closing quote |
| Json.EscapeCharRoundTrip | public/deeplink_automate.py:23 | each character's escape (plain, short escape, `\uXXXX` or a surrogate pair) reads back as that character |
| Json.EscapeCharPrintable | public/deeplink_automate.py:23 | each character's escape is printable ASCII |
| Json.Hex4RoundTrip | public/deeplink_automate.py:23 | four lower-case hex digits of a code below 0x10000 read back as that code |
| Json.SurrogatePair | public/deeplink_automate.py:23 | a `\uXXXX\uXXXX` escape of a high and a low surrogate reads as the one code point the pair encodes, 12 characters long |
| Json.Lookup | public/deeplink_automate.py:13-15 | a value that is found belongs to the last member with that key, as a dict keeps it, and a key that is not found is the key of no member |
| Utf8.EncodeChar | public/deeplink_automate.py:24 | a character encodes to 1 to 4 bytes, and to one byte exactly when it is ASCII |
| Utf8.DecodeEncode | public/deeplink_automate.py:24 | decoding the UTF-8 bytes of any string gives that string |
| Utf8.EncodeDecode | public/deeplink_automate.py:24 | any bytes the strict decoder accepts are the encoding of what it returns |
| Utf8.EncodeAscii | public/deeplink_automate.py:24 | an ASCII string encodes to its character codes, one byte each |
| Base64.EncodeLength | public/deeplink_automate.py:24 | n bytes encode to 4·⌈n/3⌉ characters |
| Base64.EncodeAlphabet | public/deeplink_automate.py:24 | the output is alphabet characters followed by exactly 0, 1 or 2 `=` signs, as n mod 3 requires |
| Base64.DecodeEncode | public/deeplink_automate.py:24 | decoding the encoding of any bytes gives those bytes |
| Base64.EncodeDecode | public/deeplink_automate.py:24 | any text the strict decoder accepts is the canonical encoding of what it returns |
| Base64.DecodeIff | public/deeplink_automate.py:24 | text decodes to some bytes if and only if those bytes encode to that text |
| Base64.GroupRoundTrip | public/deeplink_automate.py:24 | three bytes make four sextets that give the three bytes back |
| ZeroPad.DigitsSpec | public/deeplink_automate.py:43 | the decimal digits of n are at least one digit, have value n, are the fewest that can hold n, and start with `0` only for n = 0 |
| ZeroPad.Format04FourDigits | public/deeplink_automate.py:43 | ids 0 to 9999 format as exactly four digits whose value is the id |
| ZeroPad.Format04Width | public/deeplink_automate.py:43 | for a non-negative id the width is a minimum: the text has max(4, digits) characters and ends with all the id's digits, so nothing is truncated |
| ZeroPad.Format04RoundTrip | public/deeplink_automate.py:43 | the formatted id, negative ones included, reads back as the id |
| ZeroPad.Format04Injective | public/deeplink_automate.py:43 | distinct ids give distinct texts |
| ZeroPad.Format04Shape | public/deeplink_automate.py:43 | the text has at least four characters and ends with a digit, and it starts with `-` exactly when the id is negative |
| DeeplinkAutomate.BuildDeeplinkRecovers | public/deeplink_automate.py:5-25 | with the script's aId, city key and path, every deeplink gives its id back |
| DeeplinkAutomate.StationNameFor | public/deeplink_automate.py:27-32 | the name is `Station ` followed by the id |
| DeeplinkAutomate.DataRows | public/deeplink_automate.py:42-46 | one three-field row per id of the range, and none for an empty range |
| DeeplinkAutomate.DataRowsInOrder | public/deeplink_automate.py:42-46 | row k is the row of id start + k, so the rows follow the range in order |
| DeeplinkAutomate.GenerateRows | public/deeplink_automate.py:38-46 | the loop writes the header followed by exactly the specified data rows |
| DeeplinkAutomate.AppendRow | public/deeplink_automate.py:43-46 | one loop step extends the table by the row of the current id |
| DeeplinkAutomate.GenerateStationTable | public/deeplink_automate.py:34-46 | the run for stations 1 to 210 writes 211 rows: the header and one row per station |
| DeeplinkAutomate.RowFields | public/deeplink_automate.py:43-46 | row k holds the padded id of start + k, that id's name and that id's deeplink |
| DeeplinkAutomate.RowIdsFourDigits | public/deeplink_automate.py:43 | every id column in 0 to 9999 is four digits whose value is its station number |
| DeeplinkGenAbrtsPaytm.BuildDeeplink | public/deeplink_gen_abrts_paytm.py:5-24 | the interactive script's encoder equals the batch generator's for every id |
| DeeplinkGenAbrtsPaytm.Run | public/deeplink_gen_abrts_paytm.py:26-47 | rejected exactly when the id is blank, with the error text and exit status 1; otherwise a record for the trimmed id whose deeplink gives that id back, size 512, level Q, and the trimmed name or `Unnamed Station` |
| DeeplinkGenAbrtsPaytm.RunTrimmed | public/deeplink_gen_abrts_paytm.py:28-37 | only the trimmed answers matter: the outcome equals the outcome on the trimmed answers |
| DeeplinkGenAbrtsPaytm.RunPadded | public/deeplink_gen_abrts_paytm.py:28-37 | whitespace added around either answer does not change the outcome |
| Records.DisplayName | public/csv_to_json.py:13-15 | a name is trimmed, and a blank one becomes `Unnamed Station` |
| Records.UnnamedNormal | public/csv_to_json.py:15 | the default name is not blank and has no surrounding whitespace |
| Records.DisplayNameNormal | public/deeplink_gen_abrts_paytm.py:35-37 | a display name is never blank, is already trimmed, and applying the rule again changes nothing |
| Strip.StripLeftSpec | public/csv_to_json.py:13 | the left strip is a suffix that removes only whitespace and starts with a non-space unless empty |
| Strip.StripRightSpec | public/csv_to_json.py:13 | the right strip is a prefix that removes only whitespace and ends with a non-space unless empty |
| Strip.StripSpec | public/csv_to_json.py:13 | the result is a slice with only whitespace cut from both ends, and it neither starts nor ends with whitespace |
| Strip.StripEmptyIff | public/csv_to_json.py:14 | the result is empty if and only if the text is all whitespace |
| Strip.StripIdempotent | public/csv_to_json.py:17 | stripping twice is stripping once |
| Strip.StripPadding | public/deeplink_gen_abrts_paytm.py:28 | whitespace added on either side does not change the result |
| CsvToJson.Field | public/csv_to_json.py:17 | a missing column and an empty (`None`) field both read as the empty text |
| CsvToJson.RowToObject | public/csv_to_json.py:11-23 | the record holds the display name of the name field, the trimmed deeplink, size 256 and level L |
| CsvToJson.ConvertedStep | public/csv_to_json.py:34-38 | one more row adds its record exactly when its trimmed deeplink is not empty |
| CsvToJson.ConvertRows | public/csv_to_json.py:30-38 | the loop with its `continue` produces exactly the specified records |
| CsvToJson.KeptLength | public/csv_to_json.py:34-38 | there is one record per kept row |
| CsvToJson.KeptHaveDeeplinks | public/csv_to_json.py:36-37 | every kept row has a non-blank deeplink |
| CsvToJson.KeptRecords | public/csv_to_json.py:34-38 | record j is the conversion of the j-th kept row |
| CsvToJson.RecordsHaveText | public/csv_to_json.py:36-38 | every record has a non-empty text |
| CsvToJson.KeptIncreasing | public/csv_to_json.py:34-38 | the kept rows are valid positions in increasing order, so the records keep the rows' order |
| CsvToJson.KeptComplete | public/csv_to_json.py:36-38 | every row with a non-blank deeplink is kept |
| CsvToJson.ConvertedAllKept | public/csv_to_json.py:34-38 | when every row has a deeplink, there is one record per row and record k is row k's |
| Pipeline.DictRow | public/csv_to_json.py:32-34 | a row read under the header has exactly the header's columns |
| Pipeline.DictRowsOfRecords | public/csv_to_json.py:32-34 | the reader yields one row per non-empty data record, in order |
| Pipeline.ReadTable | public/csv_to_json.py:32-34 | reading the generated table gives one row per station |
| Pipeline.RecordOfFields | public/csv_to_json.py:11-23 | a row whose name and deeplink are already trimmed and not blank converts to a record that carries them unchanged |
| Pipeline.StationNameNormal | public/deeplink_automate.py:32 | a generated name is not blank and is already trimmed |
| Pipeline.LinkNormal | public/deeplink_automate.py:45 | a generated deeplink is not blank and is already trimmed |
| Pipeline.RecordOfDataRow | public/csv_to_json.py:11-23 | the generated row of station i has a deeplink and converts to that station's record |
| Pipeline.RowOfTable | public/csv_to_json.py:34-38 | row k read back from the generated table converts to the record of station start + k |
| Pipeline.RowsOfTable | public/csv_to_json.py:34-38 | every row read back from the generated table has a deeplink and converts to its station's record |
| Pipeline.GenerateThenConvert | public/csv_to_json.py:30-38 | generating ids start to end and converting gives one record per station, in order, each with `Station <id>`, the id's deeplink, size 256 and level L, so nothing is skipped |

## Left out

- File and terminal I/O is left out: opening files, the existence check with `FileNotFoundError`,
  `input`, `print` and the closing messages. The two typed answers are parameters of `Run`, and
  `sys.exit(1)` is its `Rejected` outcome.
- The CSV format itself is left out: quoting, line endings and the UTF-8 byte-order mark. The
  table is modelled as a sequence of field lists, and `csv.DictReader` as a map from the header
  to those fields.
- `csv.DictReader` gathering extra fields of a long row under a `None` key is left out. Its
  dropping of empty records is modelled by `Pipeline.DictRows`.
- Pretty printing is left out: the `indent=4` JSON of the records and of the error message, and
  the output file's `ensure_ascii=False`. Records and the error are values.
- `KeyboardInterrupt` (Ctrl+C) handling is left out, because it is an asynchronous signal.
- The strict decoders, the JSON parser, `ExtractSourceId` and the decimal reader are not in the
  scripts. They are inverses added to state round trips.
- `Base64.Encode` and `Json.Serialize` are recursive functions rather than the library's loops.
  They are specified by what they produce.
- Python's `str.isspace` set is modelled as a fixed set of characters, the full Unicode
  whitespace list that `str.strip()` removes.
- Ids are Python integers, modelled as unbounded `int`. There is no wrap-around to model.
