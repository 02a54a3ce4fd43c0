# Validation helpers of the user-registration service

The service validates user records and ships three small string helpers
in `app/validators.py`:

- `validate_email` checks an e-mail with the regular expression
  `^[a-zA-Z0-9._%+-]+@[a-zA-Z0-9.-]+\.[a-zA-Z]{2,}$` under `re.match`. It
  returns the pair `(True, "")` or `(False, "Invalid email format")`.
- `capitalize_name` strips surrounding whitespace and then capitalises the
  result: the first character in upper case, the rest in lower case.
- `count_validation_errors` returns the number of keys of an error
  dictionary.

The model in `validators.dfy` (module `Validators`) is pure: the source
functions compute values and change nothing.

The regular expression is modelled twice:

- `IsAddress` is the language of the pattern, written as
  "there are `local`, `domain` and `tld` with `s == local@domain.tld`,
  `local` in `[a-zA-Z0-9._%+-]+`, `domain` in `[a-zA-Z0-9.-]+` and `tld`
  in `[a-zA-Z]{2,}`".
- `MatchesWhole` is an executable recogniser. It splits at the first `@`
  (no character class admits `@`) and at the last `.` (letters and dots
  are both domain characters, so the backtracking regex can always move
  an earlier dot into the domain).

The two are proved equal. Python's `$` without the multi-line flag also
matches before a newline that ends the input. `PatternAccepts` therefore
accepts an address followed by one `"\n"`, and `ValidateEmail` is proved to
return `True` exactly on `PatternAccepts`.

`Strip` follows CPython: it slices off the leading and trailing runs of
whitespace, and whitespace is what `str.isspace` accepts on ASCII (codes
9-13 and 28-32). `Capitalize` maps ASCII letters only.

## Model

| member | source | states |
|---|---|---|
| Validators.ValidateEmail | app/validators.py:13-26 | the flag is true exactly when the anchored pattern accepts the input (including the case of one final newline); the message is empty on success and "Invalid email format" on failure, so the message is empty iff the flag is true |
| Validators.IsLocalPart | app/validators.py:23 | definition: the local part `[a-zA-Z0-9._%+-]+`, one or more letters, digits or `._%+-` |
| Validators.IsDomain | app/validators.py:23 | definition: the domain `[a-zA-Z0-9.-]+`, one or more letters, digits or `.-` |
| Validators.IsTopLevel | app/validators.py:23 | definition: the top-level label `[a-zA-Z]{2,}`, two or more ASCII letters |
| Validators.IsAddress | app/validators.py:23 | definition: the language of the pattern between `^` and `$`, some local part, `@`, domain, `.` and top-level label in their classes |
| Validators.PatternAccepts | app/validators.py:23-24 | definition: what `re.match` accepts with `$` in its default mode, an address, or an address followed by exactly one final `"\n"` |
| Validators.MatchesHost | app/validators.py:23 | definition: the recogniser for `[a-zA-Z0-9.-]+\.[a-zA-Z]{2,}` on a whole string, all domain characters with the last `.` preceded by something and followed by two or more letters |
| Validators.MatchesWhole | app/validators.py:23 | definition: the recogniser for the anchored pattern, local part before the first `@` and a host after it; equal to `IsAddress` by `MatchesWholeIff` |
| Validators.PatternMatches | app/validators.py:24 | definition: the recogniser standing in for `re.match`, the whole input or the input without one final `"\n"` is matched; equal to `PatternAccepts` by `PatternMatchesIff` |
| Validators.InvalidEmailMessage | app/validators.py:26 | the error message "Invalid email format" |
| Validators.MatchesWholeIff | app/validators.py:23-24 | the recogniser that splits at the first `@` and the last `.` accepts a string iff it is local@domain.tld with each part in its character class |
| Validators.MatchedIsAddress | app/validators.py:23-24 | every string the recogniser accepts is in the language of the pattern |
| Validators.AddressIsMatched | app/validators.py:23-24 | every local@domain.tld with parts in their classes is accepted by the recogniser |
| Validators.PatternMatchesIff | app/validators.py:23-24 | the recogniser extended with the final-newline case of `$` accepts exactly what `re.match` with the anchored pattern accepts |
| Validators.FinalNewline | app/validators.py:23-24 | `s + "\n"` is accepted iff `s` is an address; an input with two final newlines, or a non-address followed by a newline, is refused |
| Validators.AddressHasOneAt | app/validators.py:23 | an address built from parts in their classes contains exactly one `@` |
| Validators.AddressEndsInTopLevel | app/validators.py:23 | proof helper for `AddressEnd`, holding for any three strings: `local@domain.tld` is two characters longer than its parts together and ends in `.` followed by `tld` |
| Validators.AddressEnd | app/validators.py:23 | an address is at least six characters long, its last character is a letter, and some `.` is followed only by two or more letters |
| Validators.AcceptedBody | app/validators.py:23-24 | an accepted input is an address, or an address followed by one newline |
| Validators.AcceptedHasOneAt | app/validators.py:23-24 | every accepted e-mail contains exactly one `@` |
| Validators.AcceptedEndsInTopLevel | app/validators.py:23-24 | every accepted e-mail, without its optional final newline, ends in `.` followed by two or more ASCII letters |
| Validators.EmailAcceptedExample | app/validators.py:23-25 | "juan@example.com" gives `(True, "")` |
| Validators.EmailDottedLocalExample | app/validators.py:23-25 | "juan.perez@example.com" gives `(True, "")` |
| Validators.EmailRejectedExample | app/validators.py:23-26 | "not-an-email" gives `(False, "Invalid email format")` |
| Validators.LeadingSpace | app/validators.py:39 | the count of leading whitespace characters: all of them are whitespace and the next one is not |
| Validators.TrailingSpace | app/validators.py:39 | the count of trailing whitespace characters: all of them are whitespace and the one before is not |
| Validators.Strip | app/validators.py:39 | `str.strip()`: the result is a slice of the input with only whitespace cut on each side, and it neither starts nor ends with whitespace |
| Validators.StripSurrounded | app/validators.py:39 | stripping whitespace + s + whitespace, with s trimmed, gives back exactly s |
| Validators.StripTrimmed | app/validators.py:39 | stripping a trimmed string leaves it unchanged |
| Validators.IsSpace | app/validators.py:39 | definition: `str.isspace` on ASCII, which `strip()` uses, codes 9-13 and 28-32 |
| Validators.ToUpper | app/validators.py:39 | the upper case that `capitalize()` gives the first character: never a lower-case letter, the same lower-case form and whitespace status as the input, and unchanged unless the input is a lower-case ASCII letter |
| Validators.ToLower | app/validators.py:39 | the lower case that `capitalize()` gives the other characters: never an upper-case letter, the same whitespace status as the input, and unchanged unless the input is an upper-case ASCII letter |
| Validators.LowerAll | app/validators.py:39 | the lower-casing of the characters after the first: same length, each character mapped by `ToLower` |
| Validators.Capitalize | app/validators.py:39 | `str.capitalize()`: same length, the first character is not lower case, the rest are not upper case, and each character keeps its lower-case form and whether it is whitespace |
| Validators.CapitalizeFixed | app/validators.py:39 | capitalising a capitalised string changes nothing |
| Validators.CapitalizeName | app/validators.py:29-39 | the result is trimmed, as long as the stripped input, equal to it up to case, with its first character not lower case and the rest not upper case |
| Validators.CapitalizeNameIdempotent | app/validators.py:29-39 | normalising an already normalised name changes nothing |
| Validators.CapitalizeNameExample | app/validators.py:29-39 | "juan" becomes "Juan" |
| Validators.StripExample | app/validators.py:39 | "  pEREZ " strips to "pEREZ" |
| Validators.CapitalizeExample | app/validators.py:39 | "pEREZ" capitalises to "Perez" |
| Validators.CapitalizeNameTrimExample | app/validators.py:29-39 | "  pEREZ " becomes "Perez" |
| Validators.CountValidationErrors | app/validators.py:42-52 | the count is the number of fields with an error, and it is zero exactly for the empty dictionary |
| Validators.CountAfterRecording | app/validators.py:42-52 | recording an error for a new field adds one to the count; recording it for a field that already has one leaves the count unchanged |

## Left out

- `PROYECTO_COMPLETADO.py` is documentation text with no behaviour.
- The per-field rules of the Pydantic user model and its response shapes are not part of this model. The helpers do not depend on them.
- The `email-validator` library used by the real request model is not part of this model.
- The FastAPI endpoints, logging, timestamps and server start-up are I/O and are left out.
- Validators.Strip: whitespace is Python's only on ASCII. Non-ASCII whitespace such as U+00A0 or U+2003 is kept, where `str.strip()` would remove it.
- Validators.Capitalize: case mapping covers ASCII letters only. Other characters are left unchanged, where Python maps non-ASCII letters too and can change the length (for example "ß" to "Ss" in first position).
- Validators.CapitalizeName: inherits both ASCII-only limits above.
- Validators.CountValidationErrors: generic over the key and value types. The number of keys is all the function reads, so the shape of the error info is not modelled.
