# LocalizationConverter: localization map, Android→iOS conversion and CLI action

This project models the core of LocalizationConverter, a tool that turns Android
string resources into iOS localization files.

- **`LocalizationMaps`** (`localization_map.dfy`) models the in-memory localization bundle.
  - A `LocalizationMap` is a dictionary from localization key to `LocalizationItem`. An item is either one string or one string per plural category.
  - The map is tagged with the `LocalizationType` it was written for: Android or iOS.
  - The class has the three initialisers, the subscript getter and setter (setting nil removes the key), `keys`, `count` and `==`.
  - `convertedLocalization(to:)` returns a copy when the map already has the target type. Otherwise it rebuilds the dictionary entry by entry, rewriting every string and every plural variant. The two `convert` helpers are kept as loop methods, `ConvertLocalizations` and `ConvertPlurals`. Each is proved equal to a specification function, and the properties of the conversion are proved as lemmas about that function.
- **`FormatSpecifiers`** (`format_specifiers.dfy`) models the string-parameter rewrite. The source hands the pattern `%([0-9]+\$)?s` and the template `%$1@` to a regular-expression replacer. Here it is an explicit left-to-right, non-overlapping scan.
  - At each position the scan tries to match `%`, then an optional group (digits followed by `$`), then `s`. On a match it writes `%`, the group and `@`, and resumes after the match. Otherwise it copies one character.
  - Java string parameters `%s` and `%2$s` thus become the iOS object parameters `%@` and `%2$@`.
  - The lemmas prove what the scan computes:
    - it changes only `s` letters into `@`;
    - it rewrites each parameter at the point where it starts;
    - it leaves other conversions (`%d`, `%1$d`) alone;
    - it is idempotent;
    - it leaves a text unchanged exactly when the text holds no parameter;
    - its output holds no parameter at all, so every match was replaced.
- **`CLI`** (`cli_action.dfy`) models the command-line action.
  - `CLIAction` is either `help` or `convertLocalization` with an Android file name and an optional output path.
  - `ActionsEqual` is its hand-written equality.
  - `ParseAction` models the throwing initialiser, with a `Result` in place of `throws`.
- **`Wrappers`** (`wrappers.dfy`) holds `Option`, `Result` and the dictionary lookup `Lookup`. These stand in for Swift optionals, `throws` and `dictionary[key]`.

`CLIAction.init` is modelled as written in `CLIAction.swift`.

## Model

| member | source | states |
|---|---|---|
| FormatSpecifiers.MatchAtStartSound | Sources/LocalizationConverter/Model/LocalizationMap.swift:76 | a match reported by the scan at the start of a text is a prefix matching `%([0-9]+\$)?s`, and the reported group is the text between `%` and `s` |
| FormatSpecifiers.MatchAtStartComplete | Sources/LocalizationConverter/Model/LocalizationMap.swift:76 | whenever some prefix of the text matches the pattern, the scan finds a match there of exactly that length (the greedy digits cannot overshoot) |
| FormatSpecifiers.LeadingDigitsMaximal | Sources/LocalizationConverter/Model/LocalizationMap.swift:76 | the greedy `[0-9]+` run is all digits and is followed by a non-digit or the end of the text |
| FormatSpecifiers.ReplaceStringParameters | Sources/LocalizationConverter/Model/LocalizationMap.swift:76 | the rewritten text has the same length as the original (`%$1@` replaces one letter of each match) |
| FormatSpecifiers.OnlyParameterLettersReplaced | Sources/LocalizationConverter/Model/LocalizationMap.swift:76 | the rewrite changes no character except an `s` turned into `@`; every other character stays in place |
| FormatSpecifiers.ReplacesLeadingParameter | Sources/LocalizationConverter/Model/LocalizationMap.swift:76 | a parameter `%s` or `%<digits>$s` at the start of a text becomes `%@` or `%<digits>$@` and the rest of the text is rewritten on its own |
| FormatSpecifiers.OtherConversionUnchanged | Sources/LocalizationConverter/Model/LocalizationMap.swift:76 | a parameter whose conversion letter is not `s` (e.g. `%d`, `%2$f`, `%@`) is copied unchanged |
| FormatSpecifiers.PassThrough | Sources/LocalizationConverter/Model/LocalizationMap.swift:76 | text containing no `%` is copied through and the rewrite continues after it |
| FormatSpecifiers.NoPercentUnchanged | Sources/LocalizationConverter/Model/LocalizationMap.swift:76 | text containing no `%` is left unchanged |
| FormatSpecifiers.ReplaceIdempotent | Sources/LocalizationConverter/Model/LocalizationMap.swift:76 | rewriting already rewritten text changes nothing |
| FormatSpecifiers.ReplaceIdentityIffNoSpecifier | Sources/LocalizationConverter/Model/LocalizationMap.swift:76 | the rewrite leaves a text unchanged if and only if no substring of it matches the pattern |
| FormatSpecifiers.RewrittenContainsNoSpecifier | Sources/LocalizationConverter/Model/LocalizationMap.swift:76 | every match is replaced: the rewritten text contains no substring matching the pattern |
| FormatSpecifiers.UnpositionalExample | Sources/LocalizationConverter/Model/LocalizationMap.swift:76 | `%s` becomes `%@` |
| FormatSpecifiers.PositionalExample | Sources/LocalizationConverter/Model/LocalizationMap.swift:76 | `%1$s` becomes `%1$@` |
| FormatSpecifiers.OtherConversionExample | Sources/LocalizationConverter/Model/LocalizationMap.swift:76 | `%d` is left unchanged |
| FormatSpecifiers.PositionalOtherConversionExample | Sources/LocalizationConverter/Model/LocalizationMap.swift:76 | `%1$d` is left unchanged |
| LocalizationMaps.ConvertPlurals | Sources/LocalizationConverter/Model/LocalizationMap.swift:103-109 | the loop builds a plural group with the same categories and each variant rewritten |
| LocalizationMaps.ConvertLocalizations | Sources/LocalizationConverter/Model/LocalizationMap.swift:86-101 | the loop builds a dictionary with the same keys and each item converted: strings rewritten, plural groups converted by `ConvertPlurals` |
| LocalizationMaps.ConversionPreservesShape | Sources/LocalizationConverter/Model/LocalizationMap.swift:86-109 | conversion keeps the key set; a string item stays a string with its value rewritten; a plural item stays plural with the same categories and each variant rewritten |
| LocalizationMaps.ConvertedItemsHaveNoSpecifier | Sources/LocalizationConverter/Model/LocalizationMap.swift:86-109 | after conversion no string and no plural variant of any item holds a `%…s` parameter |
| LocalizationMaps.ConversionIdempotent | Sources/LocalizationConverter/Model/LocalizationMap.swift:86-109 | converting an already converted dictionary changes nothing |
| LocalizationMaps.ItemUnchangedIffNoSpecifier | Sources/LocalizationConverter/Model/LocalizationMap.swift:90-97 | converting an item leaves it unchanged if and only if none of its strings holds a `%…s` parameter |
| LocalizationMaps.ConversionUnchangedIffNoSpecifier | Sources/LocalizationConverter/Model/LocalizationMap.swift:86-109 | converting a dictionary leaves it unchanged if and only if no item holds a `%…s` parameter |
| LocalizationMaps.EqualIffSameLookups | Sources/LocalizationConverter/Model/LocalizationMap.swift:62-65 | two dictionaries are equal if and only if every key looks up the same optional item in both |
| LocalizationMaps.LocalizationMap.constructor | Sources/LocalizationConverter/Model/LocalizationMap.swift:23-25 | `init(type:)` gives an empty map of the given type |
| LocalizationMaps.LocalizationMap.FromDictionary | Sources/LocalizationConverter/Model/LocalizationMap.swift:27-30 | `init(type:dictionary:)` gives a map with the dictionary's key set, where each key holds the string item of its value |
| LocalizationMaps.LocalizationMap.FromLocalizations | Sources/LocalizationConverter/Model/LocalizationMap.swift:32-35 | `init(type:localizationsDictionary:)` gives a map holding exactly the given items |
| LocalizationMaps.LocalizationMap.Get | Sources/LocalizationConverter/Model/LocalizationMap.swift:38-40 | the getter returns an item exactly when the key is stored, and then the stored item |
| LocalizationMaps.LocalizationMap.Set | Sources/LocalizationConverter/Model/LocalizationMap.swift:42-48 | after setting, the getter returns the new value (nil: the key is removed); every other key keeps its item; the count drops by one when an existing key is removed, grows by one when a new key is stored, and is otherwise unchanged |
| LocalizationMaps.LocalizationMap.Keys | Sources/LocalizationConverter/Model/LocalizationMap.swift:51-53 | `keys` lists exactly the stored keys, each once, and has `count` elements |
| LocalizationMaps.LocalizationMap.Count | Sources/LocalizationConverter/Model/LocalizationMap.swift:55-57 | `count` is the number of distinct stored keys, zero exactly for the empty map |
| LocalizationMaps.LocalizationMap.Equals | Sources/LocalizationConverter/Model/LocalizationMap.swift:62-65 | two maps are equal if and only if they have the same type and every key gives the same getter result |
| LocalizationMaps.LocalizationMap.ConvertedLocalization | Sources/LocalizationConverter/Model/LocalizationMap.swift:68-84 | to its own type: a new map with the same type and items; otherwise to iOS: a new iOS map whose items are the converted items, under the same keys |
| CLI.ActionsEqual | MobileLocalizationConverter/CLI/CLIAction.swift:19-32 | `help` equals `help`; two `convertLocalization` actions are equal exactly when file name and output path are equal; mixed actions are unequal (the hand-written `==` agrees with structural equality) |
| CLI.ParseAction | MobileLocalizationConverter/CLI/CLIAction.swift:35-47 | construction succeeds exactly for `help`, and for `convertLocalization` with at least one anonymous argument. `help` gives `.help`. `convertLocalization` takes the first anonymous argument as file name and the named argument `output`, when present, as output path. With no anonymous argument it fails with `missingArgument("convertLocalization", "source android filename")`. Any other name fails with `unknownAction` carrying that name |
| CLI.ExtraAnonymousArgumentsIgnored | MobileLocalizationConverter/CLI/CLIAction.swift:40-43 | anonymous arguments after the first never change the result |
| CLI.OnlyOutputNamedArgumentUsed | MobileLocalizationConverter/CLI/CLIAction.swift:43 | named arguments other than `output` never change the result |
| CLI.UnknownActionExample | Tests/LocalizationConverterTests/CLI/CLIActionTests.swift:15-27 | the action name `toto` fails with `unknownAction("toto")` |
| CLI.HelpActionExample | Tests/LocalizationConverterTests/CLI/CLIActionTests.swift:29-34 | the action name `help` with no arguments gives an action equal to `.help` |

## Left out

- `Sources/LocalizationConverter/mainFunctions.swift` is not part of this model: file reading and writing, directory handling, console output, exit codes and the locale-folder name mapping are I/O glue around the core.
- The Android XML parser and the `Localizable.strings` / `.stringsdict` formatters are not part of this model. Their sources are not among the modelled files.
- `RegexReplacer` and the regular-expression engine are not modelled. The one fixed pattern is written out as an explicit scan, `FormatSpecifiers.ReplaceStringParameters`. Failure to build the replacer (a `fatalError` for a constant pattern) is treated as impossible.
- LocalizationMaps.LocalizationMap.ConvertedLocalization: converting into Android from iOS stops the Swift program with `fatalError`. It is a precondition here, not a modelled abort.
- LocalizationMaps.LocalizationMap.ConvertedLocalization: Swift's `return self` returns a copy of a value type. It is modelled as a freshly allocated map with the same contents.
- LocalizationMaps.LocalizationMap.Keys: Swift dictionaries have no defined order, so the contract makes no claim about the order of the keys.
- `LocalizationItem` and `PluralType` are defined outside the modelled files. They are modelled from their uses: an item is one string or a map from plural category to string. The categories are the closed set zero, one, two, few, many, other.
- Strings are sequences of characters. Unicode normalisation and the UTF-16 view used by the regular-expression engine are not modelled. The pattern consists only of ASCII characters, so neither affects which substrings match.
- Swift compares `String` values, and so dictionary keys, item values and maps, up to Unicode canonical equivalence. The model compares character sequences exactly: `"é"` written precomposed and written decomposed is one key in Swift and two keys here, which affects `Get`, `Set`, `Equals` and `ActionsEqual`.
- `LocalizationMap` is a Swift value type: every assignment or argument passing copies it. The Dafny `class` is a reference, so two variables can alias one map and an update through one is seen through the other. The model does not capture these copies beyond the fresh map returned by `ConvertedLocalization`.
