# Cookidoo CLI credential resolution, modelled in Dafny

The Cookidoo command-line client (`scripts/cookidoo_cli.py`) logs in to the
Cookidoo recipe service with an account email and password. Its
`get_credentials` function finds them:

1. it reads the environment variables `COOKIDOO_EMAIL` and `COOKIDOO_PASSWORD`;
2. if either is unset or empty, and the file `~/.config/atlas/cookidoo.env`
   exists, it walks the file's lines: a line starting with `COOKIDOO_EMAIL=`
   sets the email, and (`elif`) a line starting with `COOKIDOO_PASSWORD=` sets
   the password. In both cases the value is `line.split("=", 1)[1].strip()`;
3. if either field is still unset or empty, it prints a diagnostic and exits
   with status 1. Otherwise it returns the pair.

The project has three modules:

- `Wrappers` (`wrappers.dfy`): `Option` (Python's `None`) and `Result`.
- `PyStr` (`pystr.dfy`): the Python string operations the resolver uses.
  - `StartsWith` is `str.startswith`.
  - `SplitOnce` is `str.split(sep, 1)` for a one-character separator.
  - `LStrip`, `RStrip` and `Strip` are `str.lstrip()`, `str.rstrip()` and `str.strip()`.
  - `IsSpace` is `str.isspace` for one character. It covers Python's full set:
    U+0009–U+000D, U+001C–U+0020, U+0085, U+00A0, U+1680, U+2000–U+200A,
    U+2028, U+2029, U+202F, U+205F and U+3000.
  - Each function is defined plainly. Its properties are lemmas beside it.
- `CookidooCli` (`cookidoo_cli.dfy`): the resolver itself.
  - The method `GetCredentials` keeps the source's shape: two locals, the
    guarded `for` loop over the lines, and the final check. It splits each
    line with `SplitOnce` and strips the second part, as the source does.
  - Its postcondition ties its result to the function `Resolve`, for every
    environment and file.
  - `Resolve` folds the per-line step `ApplyLine` over the lines (`ScanFirst`).
    `ApplyLine` takes the stripped text after the prefix. The lemma
    `AssigningLineSplits` proves that this is exactly what
    `split("=", 1)[1]` yields on such a line.

The environment is a `map<string, string>`, so `os.environ.get` gives `None`
for a missing key. The file is its list of lines, as `splitlines()` returns
it, or `None` when it does not exist. The diagnostic and `sys.exit(1)` become
`Failure(MissingCredentials)`.

**Override behaviour.** Once the file is read, a matching line overwrites its
field even when the environment had already set that field. For example, take
`COOKIDOO_PASSWORD` set, `COOKIDOO_EMAIL` unset, and a file with both lines.
The result is the file's email and the file's password, and the environment's
password is discarded. The function's docstring ("from environment or config
file") could be read as a per-field priority where an environment value is
never replaced by the file. The code does not do that, and the model follows
the code: see `FileReplacesEnvironmentPassword` and
`FileLineOverridesEnvironment`.

## Model

| member | source | states |
|---|---|---|
| CookidooCli.EnvGet | scripts/cookidoo_cli.py:20-21 | No contract. It is `os.environ.get`: the value when the variable is set, `None` otherwise. |
| CookidooCli.FromEnvironment | scripts/cookidoo_cli.py:20-21 | No contract. It gives the two locals as the environment sets them. `EnvironmentSuffices` and `FallbackResult` state what follows from them. |
| CookidooCli.Present | scripts/cookidoo_cli.py:23 | No contract. It is Python truthiness of an optional string: neither `None` nor `""`. |
| CookidooCli.NeedsFallback | scripts/cookidoo_cli.py:23 | No contract. It is the guard `not email or not password`. `FallbackExactlyWhenMissing` and `EmptyVariableIsMissing` characterize it. |
| CookidooCli.Assigns | scripts/cookidoo_cli.py:27-29 | No contract. It is `line.startswith(...)` with the field's `KEY=` prefix. `PrefixesExclusive` and `AssigningLineSplits` characterize it. |
| CookidooCli.AssignedValue | scripts/cookidoo_cli.py:28-30 | No contract. It is the stripped text after the prefix. `AssigningLineSplits` shows that it equals `line.split("=", 1)[1].strip()`. |
| CookidooCli.ApplyLine | scripts/cookidoo_cli.py:27-30 | No contract. It is one loop iteration, the `if`/`elif` on the prefixes. `AssigningLine`, `UnassignedFieldKept` and `LineWithoutSeparatorIgnored` characterize it. |
| CookidooCli.ScanFirst | scripts/cookidoo_cli.py:26-30 | No contract. It is the loop after its first `n` iterations. `ScanIsLastAssignment` and `ScanLastAssignmentWins` characterize it. |
| CookidooCli.ScanLines | scripts/cookidoo_cli.py:26-30 | No contract. It is the whole loop over the file's lines. |
| CookidooCli.Decide | scripts/cookidoo_cli.py:32-37 | No contract. It is the final check: both fields present, or `Failure(MissingCredentials)`. `Resolve` carries its guarantee. |
| CookidooCli.LastAssignment | scripts/cookidoo_cli.py:26-30 | No contract. It is a reference definition without the loop: the value from the last of the first `n` lines that assigns the field, found by searching backwards, or the starting value when none does. |
| CookidooCli.FinalValue | scripts/cookidoo_cli.py:26-30 | No contract. It is `LastAssignment` over the whole file. |
| CookidooCli.ScanIsLastAssignment | scripts/cookidoo_cli.py:26-30 | For every file and prefix of it, each field after the loop equals the reference value `LastAssignment`. Fields are resolved independently of each other. |
| CookidooCli.FallbackResult | scripts/cookidoo_cli.py:23-37 | For every file, once it is consulted, the result is the final check on each field's reference value: that of its last assigning line, or the environment's when no line assigns it. Resolution succeeds exactly when both of those are non-empty. |
| CookidooCli.GetCredentials | scripts/cookidoo_cli.py:18-37 | For every environment and optional file, the result equals `Resolve(env, file)`. The loop invariant keeps the two locals equal to the scan of the lines read so far. |
| CookidooCli.Resolve | scripts/cookidoo_cli.py:32-37 | A successful result always holds a non-empty email and a non-empty password. |
| CookidooCli.AssigningLineSplits | scripts/cookidoo_cli.py:27-30 | A line that starts with `COOKIDOO_EMAIL=` or `COOKIDOO_PASSWORD=` contains `=`. `split("=", 1)` on it gives the variable name and all text after the prefix, later `=` included. |
| CookidooCli.PrefixesExclusive | scripts/cookidoo_cli.py:27-29 | No line starts with both prefixes, so the `elif` never hides a password line behind the email test. |
| CookidooCli.AssigningLine | scripts/cookidoo_cli.py:26-30 | A line with a field's prefix sets that field to the stripped text after the prefix and leaves the other field unchanged. |
| CookidooCli.UnassignedFieldKept | scripts/cookidoo_cli.py:26-30 | A line without a field's prefix leaves that field unchanged. An email line never touches the password, and the reverse. |
| CookidooCli.LineWithoutSeparatorIgnored | scripts/cookidoo_cli.py:26-30 | A line with no `=` changes neither field. |
| CookidooCli.ScanStepAssigns | scripts/cookidoo_cli.py:26-30 | Scanning one more line that assigns a field gives that field the line's value. |
| CookidooCli.ScanStepKeeps | scripts/cookidoo_cli.py:26-30 | Scanning one more line that does not assign a field keeps that field's value. |
| CookidooCli.ScanKeepsUnassigned | scripts/cookidoo_cli.py:26-30 | Over lines `m` to `n`, none of which assigns a field, the field keeps the value it had after line `m`. |
| CookidooCli.ScanLastAssignmentWins | scripts/cookidoo_cli.py:26-30 | After the scan, a field holds the stripped value from the last line that assigns it. |
| CookidooCli.EnvironmentSuffices | scripts/cookidoo_cli.py:20-23 | With both variables set and non-empty, the result is those two values, whatever the file holds. |
| CookidooCli.FallbackExactlyWhenMissing | scripts/cookidoo_cli.py:23-25 | The file matters only when a variable is unset or empty. Then the result is the final check on the scanned fields. Otherwise it is the same as with no file. |
| CookidooCli.FallbackYieldsScannedValues | scripts/cookidoo_cli.py:23-37 | When the file is consulted and the scan leaves two non-empty values, those two values are the result. |
| CookidooCli.EmptyVariableIsMissing | scripts/cookidoo_cli.py:23-35 | A variable set to the empty string counts as missing: the file is consulted, and with no file resolution fails. |
| CookidooCli.NoFileFails | scripts/cookidoo_cli.py:23-35 | If a variable is unset or empty and there is no file, resolution fails. |
| CookidooCli.FileLineOverridesEnvironment | scripts/cookidoo_cli.py:23-30 | Once the file is consulted, a successful result takes each field from the last line that assigns it, even when the environment had set that field. |
| CookidooCli.BlankFileValueFails | scripts/cookidoo_cli.py:26-35 | If the last line for a field holds only whitespace after its prefix, the field becomes empty and resolution fails. |
| CookidooCli.UnassignedMissingFieldFails | scripts/cookidoo_cli.py:23-35 | A field that the environment leaves unset or empty, and that no line assigns, makes resolution fail. |
| CookidooCli.FileEmailWithEnvironmentPassword | scripts/cookidoo_cli.py:20-37 | Password in the environment and a file with only an email line: the result is the file's email and the environment's password. |
| CookidooCli.FileReplacesEnvironmentPassword | scripts/cookidoo_cli.py:20-37 | Password in the environment, no email, and a file with both lines: the result is the file's email and the file's password. |
| CookidooCli.ValueAfterPrefix | scripts/cookidoo_cli.py:27-30 | A prefix followed by a value with no surrounding whitespace is an assigning line whose value is exactly that value. |
| PyStr.IsSpace | scripts/cookidoo_cli.py:28 | No contract. It is `str.isspace` for one character, over Python's whitespace set. |
| PyStr.StartsWith | scripts/cookidoo_cli.py:27-29 | No contract. It is `str.startswith`, compared position by position. `StartsWithSlice` characterizes it. |
| PyStr.SplitOnce | scripts/cookidoo_cli.py:28 | No contract. It is `str.split(sep, 1)`. `SplitOnceSpec` and `SplitOnceAt` characterize it. |
| PyStr.LStrip | scripts/cookidoo_cli.py:28 | No contract. It is `str.lstrip()`. `LStripSpec` and `LStripPadded` characterize it. |
| PyStr.RStrip | scripts/cookidoo_cli.py:28 | No contract. It is `str.rstrip()`. `RStripSpec` and `RStripPadded` characterize it. |
| PyStr.Strip | scripts/cookidoo_cli.py:28 | No contract. It is `str.strip()`, that is `lstrip` then `rstrip`. `StripSpec`, `StripSlice` and `StripPadded` characterize it. |
| PyStr.StartsWithSlice | scripts/cookidoo_cli.py:27-29 | `startswith` holds exactly when the prefix equals the string's leading slice of the same length. |
| PyStr.IndexOf | scripts/cookidoo_cli.py:28 | A found index is a position inside the string. |
| PyStr.IndexOfSpec | scripts/cookidoo_cli.py:28 | The search finds nothing exactly when the character is absent. Otherwise it finds the first occurrence. |
| PyStr.SplitOnceSpec | scripts/cookidoo_cli.py:28 | With no separator, `split(sep, 1)` returns the string itself. Otherwise it returns two parts; the first has no separator, and the parts joined by the separator rebuild the string. |
| PyStr.SplitOnceAt | scripts/cookidoo_cli.py:28 | Splitting `head + sep + tail` once, where `head` has no separator, returns exactly `head` and `tail`. |
| PyStr.LStripSpec | scripts/cookidoo_cli.py:28 | `lstrip` keeps a suffix that does not start with whitespace, and it removes only whitespace. |
| PyStr.RStripSpec | scripts/cookidoo_cli.py:28 | `rstrip` keeps a prefix that does not end with whitespace, and it removes only whitespace. |
| PyStr.StripSpec | scripts/cookidoo_cli.py:28 | `strip` never lengthens its input and leaves no whitespace at either end. The result is empty exactly when the input is all whitespace. |
| PyStr.StripSlice | scripts/cookidoo_cli.py:28 | The stripped string is a slice of the input with only whitespace before and after it. |
| PyStr.LStripPadded | scripts/cookidoo_cli.py:28 | `lstrip` removes leading whitespace that is followed by a non-space character. |
| PyStr.RStripPadded | scripts/cookidoo_cli.py:28 | `rstrip` removes trailing whitespace that follows a non-space character. |
| PyStr.StripPadded | scripts/cookidoo_cli.py:28 | Stripping a value padded with whitespace returns the value, if the value has no whitespace at its ends. |

## Left out

- The file system is not modelled: `Path.home()`, the path `~/.config/atlas/cookidoo.env`, `exists()` and `read_text()`. The file is a parameter, either its lines or `None` when it does not exist.
- Line breaking by `splitlines()` is not modelled. The file is given already split into lines.
- Read errors other than a missing file are not modelled. In the source they propagate as uncaught exceptions.
- The two diagnostic lines printed before `sys.exit(1)` are not modelled. The exit becomes the `Failure(MissingCredentials)` result.
- The `ImportError` guard (lines 11-15) is not modelled. It is import-time I/O.
- `main`, the argument parser, the asynchronous Cookidoo client and the command handlers are not modelled. They are outside the credential resolver.
- Country and language settings are not modelled. This function does not read them.
- `os.environ` is modelled as a snapshot map. Concurrent changes to the process environment are not modelled.
