# node-env-guard: a verified model of `checkEnv`

`checkEnv(requiredVars)` is the whole library. It runs at process start-up.
It takes an ordered list of environment variable names and looks each one up
in the process environment. It collects, in input order, every name that is
unset or whose value is blank after `trim()`. If none is missing it returns
silently. Otherwise it writes a fixed multi-line diagnostic to the error
stream, with one `- <name>` line per missing name, and exits the process with
status 1. If the argument is not an array, it throws a usage error instead.

The model has two modules:

- `StringTrim` (`trim.dfy`) models JavaScript's `String.prototype.trim`. It
  strips leading and trailing characters that satisfy `IsWhitespace`.
  `IsWhitespace` is the full ECMAScript WhiteSpace and LineTerminator set.
- `CheckEnv` (`check_env.dfy`) models `checkEnv` itself.
  - The environment is an injected `map<string, string>`. A name that is not
    a key stands for `undefined`.
  - The argument is an `Argument`: `ArrayArg(names)` or `OtherArg`.
  - The routine does no I/O. It returns an `Outcome`:
    - `UsageError(message)` stands for the thrown `Error`.
    - `Ok` stands for a normal return.
    - `Fail(lines, status)` stands for the `console.error` lines written, then `process.exit(status)`.

`CheckEnv.Check` is the imperative routine. It has the same two loops as the
source: one pushes missing names, one writes `- name` lines between the fixed
header and footer. It is proved equal to the specification function
`CheckEnv.Validate`. `Validate` is built from:

- `Missing`, an order-preserving filter;
- `Diagnostic`, the header, one `Bullet` line per name, then the footer.

The lemmas state what the source promises about these functions.

## Model

| member | source | states |
|---|---|---|
| `CheckEnv.Check` | src/checkEnv.ts:1-37 | The step-by-step routine (type check, collecting loop, header, bullet loop, footer, exit 1) returns exactly the outcome `Validate` specifies, for every argument and environment |
| `CheckEnv.Validate` | src/checkEnv.ts:1-37 | The routine as a function of argument and environment; its behaviour is stated by `UsageErrorExactlyForNonArray`, `OkIffNothingMissing` and `FailureReport`, and `Check` is proved equal to it |
| `CheckEnv.IsBlank` | src/checkEnv.ts:11 | The test that a value is `undefined` or that `value.trim() === ''`; by `TrimEmptyIffAllWhitespace` a set value is blank exactly when all its characters are whitespace |
| `CheckEnv.Missing` | src/checkEnv.ts:8-14 | The collected list; `MissingMembership`, `MissingMultiplicity`, `MissingKeepsOrder` and `MissingOfAppend` state that it is the order-preserving filter of the blank names |
| `CheckEnv.Bullet` | src/checkEnv.ts:26 | The line `- ${key}`; `BulletInjective` states that distinct names give distinct lines |
| `CheckEnv.Diagnostic` | src/checkEnv.ts:17-33 | The 7 `Header` lines, the bullet lines and the 5 `Footer` lines; `DiagnosticShape`, `DiagnosticRoundTrip` and `BulletInDiagnostic` state its layout and contents |
| `CheckEnv.UsageErrorExactlyForNonArray` | src/checkEnv.ts:2-4 | The outcome is a usage error exactly when the argument is not an array, and then it is the fixed message with no lines and no exit status |
| `CheckEnv.MissingMembership` | src/checkEnv.ts:8-14 | A name is in the missing list if and only if it is required and is either unset or trims to the empty string |
| `CheckEnv.MissingMultiplicity` | src/checkEnv.ts:8-13 | A blank name occurs in the missing list exactly as often as in the input; a non-blank name never occurs |
| `CheckEnv.MissingKeepsOrder` | src/checkEnv.ts:8-13 | The missing list is the input restricted to the strictly increasing positions whose name is blank, so it is a subsequence in input order; a position is kept exactly when its name is blank |
| `CheckEnv.MissingOfAppend` | src/checkEnv.ts:8-14 | Collecting over a concatenated list gives the concatenation of the two collected lists, so the scan is a filter, one element at a time |
| `CheckEnv.OkIffNothingMissing` | src/checkEnv.ts:16-37 | The routine returns normally exactly when every required name has a non-blank value; an empty list always returns normally |
| `CheckEnv.FailureReport` | src/checkEnv.ts:16-35 | With at least one blank name, the outcome is an exit with status 1. It writes 12 + (number missing) lines with the banner third. Reading the names back gives the missing list. A `- name` line is present exactly for the required blank names |
| `CheckEnv.BulletsAt` | src/checkEnv.ts:25-27 | The bullet block has one line per missing name, and line i is `- ` followed by the i-th missing name |
| `CheckEnv.DiagnosticShape` | src/checkEnv.ts:17-33 | The diagnostic is 12 + n lines: the 7 header lines (banner third), then `- ` + missing[i] at line 7 + i, then the 5 footer lines |
| `CheckEnv.FrameHasNoBulletLines` | src/checkEnv.ts:17-33 | None of the fixed header or footer lines begins with `- `, so none can be confused with a report line |
| `CheckEnv.DiagnosticRoundTrip` | src/checkEnv.ts:17-33 | Reading the lines that begin with `- ` back out of the diagnostic, prefix removed, gives the missing list itself, in order |
| `CheckEnv.BulletInDiagnostic` | src/checkEnv.ts:25-27 | The line `- name` is in the diagnostic if and only if `name` is in the missing list |
| `CheckEnv.BulletInjective` | src/checkEnv.ts:26 | Two report lines are equal only if they report the same name |
| `CheckEnv.ListedNamesOfBullets` | src/checkEnv.ts:25-27 | Reading the names back from the bullet block alone gives the missing list |
| `CheckEnv.SetWhenFirstCharIsNotWhitespace` | src/checkEnv.ts:11 | A set value whose first character is not whitespace is not blank |
| `CheckEnv.EmptyEnvironmentFails` | test/failure.test.js:9-22 | With an empty environment and `['DB_HOST','JWT_SECRET']`: exit status 1, the banner `ENV VALIDATION FAILED`, and both `- DB_HOST` and `- JWT_SECRET` lines |
| `CheckEnv.BothSetSucceeds` | test/success.test.js:9-20 | With `DB_HOST=localhost` and `JWT_SECRET=secret` the routine returns normally |
| `CheckEnv.WhitespaceValueFails` | src/checkEnv.ts:11 | A value of three spaces counts as missing: exit status 1 with a `- DB_HOST` line |
| `StringTrim.IsWhitespace` | src/checkEnv.ts:11 | The ECMAScript WhiteSpace and LineTerminator code points that `trim()` strips; the trim lemmas are stated in terms of it |
| `StringTrim.Trim` | src/checkEnv.ts:11 | `value.trim()`; `TrimIsStrippedInfix`, `TrimEndsAreNotWhitespace`, `TrimEmptyIffAllWhitespace` and `TrimIdempotent` state its contract |
| `StringTrim.TrimStart` | src/checkEnv.ts:11 | Stripping leading whitespace never lengthens the value |
| `StringTrim.TrimEnd` | src/checkEnv.ts:11 | Stripping trailing whitespace never lengthens the value |
| `StringTrim.TrimStartDropsLeadingWhitespace` | src/checkEnv.ts:11 | TrimStart returns a suffix of its input. Everything before the suffix is whitespace, and the suffix does not start with whitespace |
| `StringTrim.TrimEndDropsTrailingWhitespace` | src/checkEnv.ts:11 | TrimEnd returns a prefix of its input. Everything after the prefix is whitespace, and the prefix does not end with whitespace |
| `StringTrim.TrimIsStrippedInfix` | src/checkEnv.ts:11 | `trim()` returns one contiguous piece of its input, and what it removed on either side is whitespace |
| `StringTrim.TrimEndsAreNotWhitespace` | src/checkEnv.ts:11 | A non-empty trimmed value neither starts nor ends with whitespace |
| `StringTrim.TrimEmptyIffAllWhitespace` | src/checkEnv.ts:11 | `value.trim() === ''` holds exactly when every character of the value is whitespace (the empty value included) |
| `StringTrim.TrimIdempotent` | src/checkEnv.ts:11 | Trimming a trimmed value changes nothing |

## Left out

- Real I/O and process control: each `console.error` call becomes one element of `Fail.lines`. The `process.exit(1)` call becomes `Fail.status`. The thrown `Error` becomes `UsageError`. Nothing models that the process stops or that the exception unwinds the caller.
- The ambient `process.env` is a parameter instead of a global. The routine only reads it. A Dafny `map` is an immutable value, so "the environment is unchanged after the call" holds by construction and needs no contract.
- Names inherited from `Object.prototype` (`toString`, `constructor`, `hasOwnProperty`, `valueOf`, `__proto__` and the like): when no variable of that name is set, Node's `process.env[key]` yields the inherited property rather than `undefined`, so `value.trim()` throws a TypeError. The model treats such a name as unset and reports it as missing; it has no outcome for that TypeError, so `OkIffNothingMissing` and `FailureReport` describe the source only for names that are not inherited properties.
- Values other than arrays are one case, `OtherArg`. Array elements that are not strings, holes in sparse arrays and Node's special treatment of `process.env` keys (string conversion, case-insensitive names on Windows) are not modelled. The declared type is `string[]`.
- `IsWhitespace` is the ECMAScript WhiteSpace and LineTerminator set as a fixed list of code points. It does not follow later Unicode changes to the space-separator category. JavaScript strings are sequences of UTF-16 code units, but the model uses Unicode scalar values. The two agree for every character `trim()` can remove.
- The test scripts' child-process plumbing (`spawnSync`, the `OK` line printed by the success script) is not logic of `checkEnv`. Its two scenarios are stated as lemmas instead.
