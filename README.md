# gtml macro table

gtml expands macros across a tree of HTML source files. Its macros live in a
process-wide table. This project models the writer of that table, `Define`
in gtml.py, together with the start-up loop that defines every environment
variable as a macro.

The state is two module-level containers:

- the dictionary `defines`, from macro name to stored text;
- the list `extensions`, the output extensions gtml recognises.

`Define(key, value)` behaves as follows:

- It refuses the four system macros `__PYTHON__`, `__SYSTEM__`, `__NEWLINE__`
  and `__TAB__` and changes nothing. The refusal calls `Warning(...)`, which
  is Python's built-in exception class: the call builds an exception object
  and discards it, so nothing is reported.
- For the key `EXTENSION` it appends the raw value to `extensions`.
- For the key `LANGUAGE` it calls `SetTimestamps()`, meant to refresh the
  timestamp macros. gtml.py neither defines nor imports that name, so the
  call raises `NameError` before anything is stored (see "## Findings").
- It stores an empty value as the sentinel `(((BLANK)))`, so that "defined
  but empty" differs from "absent".
- It overwrites the entry for `key`. A later definition always replaces an
  earlier one.

The model has two modules:

- `MacroSpec` (macro_spec.dfy) describes the state as a value, `Table`. It
  gives the effect of one call as the function `Apply`, and the effect of a
  sequence of calls as `ApplyAll`. It also has the reference definitions
  `ExtensionValues`, `RefusedKeys` and `WrittenKeys`, and the lemmas
  connecting all of these.
- `Gtml` (gtml.dfy) holds the class `MacroTable`. Its fields `defines` and
  `extensions` are updated in place by the methods `Define` and `DefineAll`.
  Each method is proved to produce exactly the state that `Apply` or
  `ApplyAll` describes.

The refusal is modelled as the flag that `Define` returns, and `DefineAll`
returns the refused names in order. The model follows the intended behaviour
for `LANGUAGE`: the timestamp refresh is a parameter, the function `refresh`
on the dictionary, and the entry is then stored. The code as written is
modelled separately by `DefineAsWritten` and `DefineAllAsWritten`.

The assignments to `includePath`, `outputDir`, `delim1`, `delim2`, `argsep`,
`ext_target` and `debug` at gtml.py:68-88 have no `global` declaration. They
bind local variables that are discarded when `Define` returns. Only
`defines` and `extensions` change, and configuration keys are stored like any
other macro.

## Model

| member | source | states |
|---|---|---|
| `MacroSpec.Stored` | gtml.py:93-94 | the stored form of a value is never empty; a non-empty value is kept and the empty value becomes `(((BLANK)))` |
| `MacroSpec.Apply` | gtml.py:53-96 | a reserved name leaves the whole state unchanged; any other key then holds the stored form of the value; `extensions` gains exactly the raw value when the key is `EXTENSION` and is otherwise unchanged; for keys other than `LANGUAGE` the domain grows by at most the key and every other entry is kept; for `LANGUAGE` the result is the refreshed dictionary with the key written |
| `MacroSpec.ApplyAll` | gtml.py:161-162 | defining a sequence of pairs only extends `extensions` at its end, by at most one element per pair |
| `MacroSpec.LastWriteWins` | gtml.py:96 | two definitions of the same non-reserved key leave the stored form of the second value; there is no first-definition-wins rule |
| `MacroSpec.DefineIdempotent` | gtml.py:93-96 | repeating the same definition (key other than `LANGUAGE`) leaves the same macros as defining it once |
| `MacroSpec.DefineCommutes` | gtml.py:68-96 | definitions of two distinct keys, neither `LANGUAGE`, give the same state in either order |
| `MacroSpec.ConfigurationKeyStored` | gtml.py:68-96 | `INCLUDE_PATH`, `OUTPUT_DIR`, `OPEN_DELIMITER`, `CLOSE_DELIMITER`, `ARGUMENT_SEPARATOR`, `EXTENSION` and `DEBUG` are stored like any other macro and every other entry is kept |
| `MacroSpec.ApplyAllExtensions` | gtml.py:83-85 | after a sequence of definitions, `extensions` is the old list followed by the raw values of the `EXTENSION` pairs, in order, empty values included |
| `MacroSpec.ExtensionValuesMembers` | gtml.py:83-85 | a value is among the appended extensions exactly when some pair defines `EXTENSION` with it |
| `MacroSpec.RefusedKeysMembers` | gtml.py:61-66 | a name is refused in the loop exactly when it is reserved and some pair defines it |
| `MacroSpec.ApplyAllLastOccurrence` | gtml.py:161-162 | after the loop, each non-reserved key maps to the stored form of the value of its last occurrence, when no `LANGUAGE` pair follows it or the timestamp refresh keeps that entry |
| `MacroSpec.ApplyAllUntouched` | gtml.py:61-66 | a reserved key, or a key no pair names, keeps its presence and value across the loop, so reserved keys stay absent unless already present, when no pair defines `LANGUAGE` or the timestamp refresh keeps that entry |
| `MacroSpec.ApplyAllKeys` | gtml.py:161-162 | without a `LANGUAGE` pair, the keys afterwards are the old keys plus every non-reserved key of the pairs, and no others |
| `MacroSpec.ApplyAllNoEmptyValues` | gtml.py:93-96 | a table with no empty values never gains one through `Define`, when no pair defines `LANGUAGE` or the timestamp refresh adds none |
| `MacroSpec.DefineAsWritten` | gtml.py:60-96 | as the code runs: `LANGUAGE` raises `NameError` with the state unchanged; every other key behaves as in `Apply` |
| `MacroSpec.DefineAllAsWritten` | gtml.py:161-162 | as the code runs: without a `LANGUAGE` pair the loop completes with the state `ApplyAll` gives |
| `MacroSpec.DefineAllAsWrittenStops` | gtml.py:90-91 | as the code runs, the loop ends at the first `LANGUAGE` pair, with the state left by the pairs before it |
| `MacroSpec.LanguageAbortsStartup` | gtml.py:161-162 | with `LANGUAGE` defined first, the code as written defines neither `LANGUAGE` nor `HOME`, while the intended behaviour defines both |
| `Gtml.MacroTable.constructor` | gtml.py:49-50 | `defines` and `extensions` start empty |
| `Gtml.MacroTable.Define` | gtml.py:53-96 | reports a refusal exactly for the reserved names; the new state of `defines` and `extensions` is `Apply` of the old state |
| `Gtml.MacroTable.DefineAll` | gtml.py:161-162 | defining the pairs one by one leaves the state `ApplyAll` of the old state; the refused names are the reserved keys of the pairs, in order |

## Left out

- Command-line parsing with `argparse` (gtml.py:117-159): library configuration with no logic of its own.
- `show_version` (gtml.py:98-113): prints a constant text.
- Reading `os.environ` (gtml.py:47, 161): the environment is an abstract sequence of (name, value) pairs. Duplicate names are allowed, which is more general than a real environment.
- `Warning(...)` (gtml.py:65) is Python's built-in exception class. The call has no visible effect. The `warned` result records the refusal the code evidently means to report.
- `SetTimestamps()` (gtml.py:91) is not defined anywhere in gtml.py. `refresh` models the timestamp refresh the code was meant to do, not the code as written, which raises `NameError`. The model assumes the refresh does not touch `extensions`.
- MacroSpec.ApplyAllLastOccurrence: when a `LANGUAGE` pair follows the key, assumes the refresh leaves the key's entry alone, because what the refresh writes is unknown.
- MacroSpec.ApplyAllUntouched: when some pair defines `LANGUAGE`, assumes the refresh leaves the key's entry alone, for the same reason.
- MacroSpec.ApplyAllKeys: assumes no pair defines `LANGUAGE`, because the refresh may add keys of its own.
- MacroSpec.ApplyAllNoEmptyValues: when some pair defines `LANGUAGE`, assumes the refresh adds no empty value, for the same reason.
- The function-local assignments at gtml.py:69-88 (`includePath`, `outputDir`, `delim1`, `delim2`, `argsep`, `ext_target`, `debug`) and the discarded `value.split(':')`: they have no effect after `Define` returns.
- The insertion order of the Python dictionary: the model's `defines` is an unordered map.
- Macro substitution, argument markers, conditional directives, the site hierarchy and dependency tracking: gtml.py does not contain them, so they are not part of this model.

## Findings

| source | as written | input that shows it | evidently intended | confidence | as-written member | corrected member |
|---|---|---|---|---|---|---|
| gtml.py:90-91, 161-162 | `Define("LANGUAGE", v)` calls `SetTimestamps()`, which gtml.py neither defines nor imports, so it raises `NameError` before the entry is stored; the uncaught error also ends the start-up loop | an environment whose pairs are `LANGUAGE=en` followed by `HOME=/root`: neither is defined | refresh the timestamp macros, store `LANGUAGE` and go on with the remaining pairs | high, not executed | `MacroSpec.DefineAllAsWrittenStops` | `MacroSpec.Apply` |
