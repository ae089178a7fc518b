# uk_bin_collection common helpers, in Dafny

This project models the shared helpers that the UK bin-collection scrapers
call before and while fetching a council's data
(`uk_bin_collection/uk_bin_collection/common.py`):

- **Input validators.** `check_postcode` matches its UK postcode regular
  expression, `check_paon` checks that a house number is present, and
  `check_uprn` checks that a UPRN is present and not empty. Each
  validator's print/exit behaviour becomes an `Outcome`:
  - `Accepted`: the validator returned `True`.
  - `Exit(1)`: it printed a diagnostic and exited the process.
  - `Reported`: it printed a diagnostic and returned `None`.
- **`get_date_with_ordinal`.** A day number followed by "st", "nd", "rd"
  or "th".
- **`parse_header`.** Turns a `|`-separated string of `name: value` fields
  into a header dictionary. Fields that start with `:` are HTTP/2
  pseudo-headers.
- **The `Region` enum and `is_holiday`.** The holiday calendar is a
  parameter.

Modules:

- `Wrappers`: `Option` and `Result`.
- `PyStr`: the Python string built-ins the helpers rely on:
  - `str.split(sep)` and `str.split(sep, 1)`;
  - `str.strip()`, over the whitespace of `str.isspace`;
  - `str(int)`.
- `Postcode`: the postcode pattern in two forms, with a proof that they
  agree:
  - a declarative grammar, where each optional atom of the regular
    expression is a choice;
  - an executable recognizer.
- `Validators`: the three checks.
- `Ordinal`: `get_date_with_ordinal`.
- `Header`: `parse_header`, in two forms:
  - a method with the source's loop, which updates a map;
  - a specification function that folds the fields left to right.

  The method is proved equal to the function. The fold's lemmas state when
  parsing fails, where it fails, which names appear, that the last value
  for a name wins, and that writing a header and parsing it gives the same
  dictionary back.
- `Regions`: `Region` and `IsHoliday`.

The pseudo-header key follows the code, not the usual description of
"both sides stripped". The code strips `":" + a`, and that string starts
with a colon. So whitespace right after the leading colon stays in the
name: `": path: /x"` gives the name `": path"`. `Header.PseudoFieldOf` and
`Header.PseudoNameKeepsInnerSpace` state this.

Python's `%` with a positive divisor gives the same result as Dafny's `%`.
So `Ordinal.OrdinalSuffix` models negative day numbers as well.

## Model

| member | source | states |
|---|---|---|
| Validators.CheckPostcode | uk_bin_collection/uk_bin_collection/common.py:18-33 | Accepted exactly when the postcode is not None and fully matches the postcode pattern; every other input ends in exit status 1 |
| Postcode.PostcodeRecognizerCorrect | uk_bin_collection/uk_bin_collection/common.py:23 | the recognizer accepts a string exactly when the declarative grammar of the regular expression matches all of it: either the general form (optional second letter, never I or Z; optional fourth character; optional space) or case-insensitive GIR, optional space, 0AA |
| Postcode.GirIsSpecial | uk_bin_collection/uk_bin_collection/common.py:23 | "GIR 0AA" and "gir0aa" match only through the GIR alternative of the pattern, not the general one |
| Validators.CheckPaon | uk_bin_collection/uk_bin_collection/common.py:36-50 | Accepted exactly when the house number is not None, the empty string included; None ends in exit status 1 |
| Validators.CheckUprn | uk_bin_collection/uk_bin_collection/common.py:53-66 | Accepted exactly when the UPRN is not None and not empty; otherwise the problem is reported and the process goes on |
| Validators.FailurePolicies | uk_bin_collection/uk_bin_collection/common.py:24-66 | a failed postcode or house-number check terminates; a failed UPRN check never does; every UPRN the UPRN check accepts is one the house-number check accepts, and the empty string is accepted by one and reported by the other |
| Validators.ValidatorExamples | uk_bin_collection/tests/test_common_functions.py:5-31 | "SW1A 1AA" is accepted; "BADPOSTCODE" and None exit with status 1; house number "1" is accepted and None exits with status 1 |
| Ordinal.OrdinalSuffix | uk_bin_collection/uk_bin_collection/common.py:77-79 | the suffix is always one of "st", "nd", "rd", "th" |
| Ordinal.DateWithOrdinal | uk_bin_collection/uk_bin_collection/common.py:69-80 | the result is str(n), unchanged, followed by the two-letter English ordinal suffix of n (st, nd, rd for last digit 1, 2, 3 except 11, 12, 13; th otherwise), which is one of "st", "nd", "rd", "th" |
| Ordinal.OrdinalSuffixIsEnglish | uk_bin_collection/uk_bin_collection/common.py:77-79 | rule "th when n % 100 is 4 to 20, otherwise by n % 10" equals the English rule: st, nd, rd for last digit 1, 2, 3 except 11, 12, 13 |
| Ordinal.DateWithOrdinalRoundTrip | uk_bin_collection/uk_bin_collection/common.py:76-80 | taking the suffix off and reading the digits back gives n, for every integer n |
| Ordinal.DateWithOrdinalInjective | uk_bin_collection/uk_bin_collection/common.py:76-80 | different numbers get different ordinal strings |
| Ordinal.OrdinalExamples | uk_bin_collection/tests/test_common_functions.py:33-36 | 1st, 2nd, 3rd, 4th, 11th, 21st, 112th |
| PyStr.IntToString | uk_bin_collection/uk_bin_collection/common.py:76 | str(n) is non-empty and digits after its first character; a negative n is written as '-' followed by digits without a leading zero, and a non-negative n starts with a digit and has a leading zero only when it is "0" |
| PyStr.IntToStringRoundTrip | uk_bin_collection/uk_bin_collection/common.py:76 | str(n) is decimal: parsing it gives n back, negatives included |
| PyStr.NatToString | uk_bin_collection/uk_bin_collection/common.py:76 | the rendering is non-empty, all digits, without a leading zero except for 0 itself |
| PyStr.Split | uk_bin_collection/uk_bin_collection/common.py:91 | split always gives at least one piece, and no piece contains the separator |
| PyStr.JoinSplit | uk_bin_collection/uk_bin_collection/common.py:91 | joining the pieces of a split with the separator gives the string back |
| PyStr.SplitJoin | uk_bin_collection/uk_bin_collection/common.py:91 | splitting a join of separator-free pieces gives the pieces back |
| PyStr.SplitOnce | uk_bin_collection/uk_bin_collection/common.py:94-97 | split at the first separator: fails exactly when there is none; otherwise the string is head, separator, tail, and the head has no separator |
| PyStr.FirstIndex | uk_bin_collection/uk_bin_collection/common.py:94-97 | the index of the first occurrence, or None exactly when the character does not occur |
| PyStr.LeadingSpace | uk_bin_collection/uk_bin_collection/common.py:99 | the longest all-whitespace prefix |
| PyStr.TrailingSpace | uk_bin_collection/uk_bin_collection/common.py:99 | the longest all-whitespace suffix |
| PyStr.Strip | uk_bin_collection/uk_bin_collection/common.py:99 | the result is the slice of the input that starts after its leading whitespace, with only whitespace after it, and it neither starts nor ends with whitespace |
| PyStr.StripIdempotent | uk_bin_collection/uk_bin_collection/common.py:99 | stripping twice is stripping once |
| Header.ParseField | uk_bin_collection/uk_bin_collection/common.py:93-99 | one field gives no entry exactly when no colon follows its optional leading one (PlainFieldOf and PseudoFieldOf give the name and value otherwise, ParseFieldShape their shape) |
| Header.Assign | uk_bin_collection/uk_bin_collection/common.py:90-99 | assigning entries in order into an empty dictionary fails only at an index that holds a missing entry (AssignSucceedsIff, AssignFailsAtFirst, AssignKeys and AssignLastWins state the rest) |
| Header.HeaderOf | uk_bin_collection/uk_bin_collection/common.py:83-101 | what parse_header returns: when it raises, the error names a field of the split header that has no colon after its optional leading one (HeaderFailsIff, HeaderFailsAtFirst, HeaderLastWins and HeaderRoundTrip state the rest) |
| Header.ParseHeader | uk_bin_collection/uk_bin_collection/common.py:83-101 | the loop over the fields builds exactly the dictionary and raises at exactly the field that the fold specification gives |
| Header.SplitLine | uk_bin_collection/uk_bin_collection/common.py:93-99 | one turn of the loop body computes the field's stripped name and value, or fails, as ParseField specifies |
| Header.ParseFieldShape | uk_bin_collection/uk_bin_collection/common.py:93-99 | a field fails exactly when no colon follows its optional leading one; otherwise name and value are stripped; a pseudo-header name starts with its colon and has no other, and any other name has no colon (PlainFieldOf and PseudoFieldOf give the exact name and value) |
| Header.AssignSucceedsIff | uk_bin_collection/uk_bin_collection/common.py:91-99 | assigning the entries in order succeeds exactly when every entry is present |
| Header.AssignFailsAtFirst | uk_bin_collection/uk_bin_collection/common.py:91-99 | on failure, the error names the first missing entry |
| Header.AssignKeys | uk_bin_collection/uk_bin_collection/common.py:99 | the dictionary's names are exactly the names of the entries |
| Header.AssignLastWins | uk_bin_collection/uk_bin_collection/common.py:99 | each name holds the value of the last entry that names it |
| Header.HeaderFailsIff | uk_bin_collection/uk_bin_collection/common.py:91-97 | parse_header raises exactly when some field has no colon after its optional leading one |
| Header.HeaderFailsAtFirst | uk_bin_collection/uk_bin_collection/common.py:91-97 | it raises at the first such field, every earlier field having a colon |
| Header.HeaderLastWins | uk_bin_collection/uk_bin_collection/common.py:90-101 | each name parse_header returns holds the value of the last field that names it |
| Header.ParseFieldRoundTrip | uk_bin_collection/uk_bin_collection/common.py:93-99 | for a stripped name with a colon only in front and a stripped value, with no pipe character in either, parsing name + ":" + value gives back the pair |
| Header.HeaderRoundTrip | uk_bin_collection/uk_bin_collection/common.py:90-101 | joining well-formed fields with pipe characters and parsing the result gives the dictionary of those fields assigned in order |
| Header.PlainFieldOf | uk_bin_collection/uk_bin_collection/common.py:96-99 | a field a + ":" + b whose part a is non-empty and colon-free is split at that first colon and gives the name Strip(a) and the value Strip(b) |
| Header.PseudoFieldOf | uk_bin_collection/uk_bin_collection/common.py:93-95 | the field ":" + a + ":" + b, with no colon in a, has the name Strip(":" + a) and the value Strip(b) |
| Header.PseudoNameKeepsInnerSpace | uk_bin_collection/uk_bin_collection/common.py:93-99 | stripping a name that starts with a colon removes only its trailing whitespace, so whitespace just after the leading colon stays in the name |
| Header.EmptyHeaderFails | uk_bin_collection/uk_bin_collection/common.py:91-97 | the empty header string raises at field 0, since splitting "" gives [""] |
| Regions.FromValue | uk_bin_collection/uk_bin_collection/common.py:10-15 | Region(v) exists exactly for v in 1 to 5, and has value v |
| Regions.FromValueRoundTrip | uk_bin_collection/uk_bin_collection/common.py:10-15 | every region is found again from its value |
| Regions.NamesDistinct | uk_bin_collection/uk_bin_collection/common.py:10-15 | different regions have different names, so is_holiday passes them different subdivision names |
| Regions.IsHolidayDefault | uk_bin_collection/uk_bin_collection/common.py:104-113 | with the default region, is_holiday answers whether the date is in the calendar of the "UK" subdivision |

## Left out

- `is_holiday` (common.py:104-116) asks the third-party `holidays` library for the calendar of `GB`, subdivision `region.name`. `Regions.IsHoliday` takes that calendar as a function parameter, so it states no property beyond membership.
- The diagnostic text the validators print, for these reasons:
  - it is console output, so an `Outcome` stands for it;
  - the messages the tests expect differ from what the code prints.
- The `try`/`except Exception` in the validators catches nothing beyond the `ValueError` they raise themselves, given string inputs. Arguments that are not strings cannot occur here, because every parameter is typed.
- `get_date_with_ordinal` is modelled for `int` arguments only. Python also accepts other arguments: a float gives `str(x)` plus a suffix chosen by `x % 100` and `x % 10` (4.5 gives "4.5th", 21.0 gives "21.0st"), `True` gives "Truest", and a string such as `'a'` raises `TypeError` (the test that passes `'a'`). None of these is in the model.
- Ordinal.DateWithOrdinal: does not model the `ValueError` that `str(n)` raises in CPython for an int of more than 4300 decimal digits (`sys.int_max_str_digits`); the model returns the string for every int.
- PyStr.IntToString: the same limit on `str(n)` is not modelled, so `PyStr.IntToStringRoundTrip` and `Ordinal.DateWithOrdinalRoundTrip` hold here for ints that CPython refuses to render.
- Dictionary insertion order in `parse_header`'s result is not modelled, because a Dafny `map` has no order. Names, values and the last-wins rule are modelled.
- `parse_header`'s "too many values to unpack" `ValueError`, for a field with more than two pieces, never happens, because `split(":", 1)` gives at most two. The only unpack error is the one for a single piece (no colon), modelled as `MissingColon(field)`.
- The module constant `date_format` is only used by callers outside this model.
- `collect_data.py` is left out: it is argument parsing, dynamic module import, and forwarding to code that is not part of this model.
- The council scrapers are left out: network requests and HTML/XML parsing.
- Header.HeaderLastWins: the converse, that every field's name appears in the result, is stated over the fold's entries (`Header.AssignKeys`) and not restated in terms of the raw header string.
