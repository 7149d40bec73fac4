# Client-side authentication of the DGames Studio web site, in Dafny

The site has no server. Accounts, sessions and the user directory all live in
the browser's `localStorage`, and one React context, `AuthProvider`, owns them.
It offers sign-up, sign-in, sign-out, a simulated Google sign-in, a password-reset
request, a profile update and account deletion. The sign-in dialog, `AuthModal`,
checks its form before it calls the context and shows a password-strength meter.

The model follows that split:

| file | module | what it holds |
|---|---|---|
| `wrappers.dfy` | `Wrappers` | `Option` |
| `text.dfy` | `Text` | JavaScript white space, `trim`, `toLowerCase` (ASCII letters only), the decimal digits of a timestamp |
| `validation.dfy` | `Validation` | `validateEmail` and its regular expression; `validatePassword` and its five rules |
| `directory.dfy` | `Directory` | the `User` record; what a storage slot can hold; the directory's linear find, replace and filter |
| `auth_context.dfy` | `AuthContext` | the checks each operation makes, the records it creates, and the class `AuthProvider` with one method per operation |
| `auth_modal.dfy` | `AuthModal` | the dialog's field checks and error map, the strength meter, and the class `AuthForm` with the form state |

Modelling choices:

- **Storage slots.** Each of the three `localStorage` slots (user snapshot, session token, directory) is a `Stored<T>`:
  - `Absent` is a missing key or the empty string (both falsy).
  - `Corrupt` is text that `JSON.parse` or `atob` rejects.
  - `Present` is a decoded value.
- **Clock and randomness.** The clock (`Date.now()`) is a parameter `now`, in milliseconds. The random part of a generated id (`Math.random().toString(36)…`) is a parameter `suffix`.
- **Timestamps.** ISO timestamps are modelled as the instants they render.
- **One step per operation.** Every operation runs as a single step. The simulated network delays, and any interleaving they would allow, are not modelled.
- **Errors.** A thrown `Error` is a `Failed(error)` outcome. `Message` gives the exact text of each error.

The operations are proved against specification functions:

- `SignUpError`, `SignInError`, `ResetError` and `ProfileNameError` give the check a call fails, in the code's order.
- `NewEmailUser`, `NewGoogleUser` and `Merge` give the record an operation writes.
- `ReplaceFirst` and `RemoveId` give the new directory.

Lemmas then state each check order on the input as the user typed it. Further lemmas show:

- the dialog's checks agree with the context's;
- sign-up keeps e-mail addresses unique;
- a record created by sign-up can be signed in to afterwards.

Four behaviours of the code a reader may not expect, all kept by the model:

- `updateUserInDatabase` is **not** an upsert. When no entry has the id, nothing is written (`src/context/AuthContext.tsx:110-117`).
- Sign-up checks the password rules **before** it looks for the address in the directory. A duplicate address with a weak password therefore reports the password rule, not "already exists" (`src/context/AuthContext.tsx:167-178`).
- `initializeAuth` writes the refreshed `lastLogin` into the directory and into memory. The stored snapshot keeps the old value (`src/context/AuthContext.tsx:63-67`).
- The token's `userId` is never compared with the snapshot's id. Only `expires` is read (`src/context/AuthContext.tsx:60-63`).

## Model

| member | source | states |
|---|---|---|
| Text.Trim | src/context/AuthContext.tsx:121 | `String.prototype.trim` never lengthens its input (its exact effect is `TrimStartSpec`, `TrimEndSpec`, `TrimSlice`) |
| Text.TrimStartSpec | src/context/AuthContext.tsx:121 | `trim` drops exactly the longest prefix of JavaScript white space (with `TrimEndSpec`, the suffix) |
| Text.TrimEndSpec | src/context/AuthContext.tsx:121 | the trailing half of `trim`: exactly the longest white-space suffix is dropped |
| Text.TrimSlice | src/context/AuthContext.tsx:121 | `trim(s)` is a contiguous slice of `s` with only white space outside it and none at its ends |
| Text.TrimEmptyIff | src/context/AuthContext.tsx:152-161 | `!s.trim()` holds exactly when `s` is all white space |
| Text.TrimIdempotent | src/context/AuthContext.tsx:151-152 | trimming twice is trimming once |
| Text.ToLower | src/context/AuthContext.tsx:151 | `toLowerCase` keeps the length and maps each character independently |
| Text.TrimToLowerTrim | src/context/AuthContext.tsx:151 | `email.trim().toLowerCase()` is already trimmed, and is empty exactly when the trimmed input is |
| Text.DecimalString | src/context/AuthContext.tsx:275 | the template-literal rendering of `Date.now()` is a non-empty run of decimal digits |
| Text.DecimalRoundTrip | src/context/AuthContext.tsx:275 | reading those digits back gives the timestamp |
| Validation.IsValidEmail | src/context/AuthContext.tsx:119-122 | `validateEmail`: the pattern on the trimmed input; an accepted input is never blank (its meaning is `EmailShapeIsRegex`) |
| Validation.EmailShapeIsRegex | src/context/AuthContext.tsx:119-122 | the computable split-at-`@` check accepts exactly the strings `/^[^\s@]+@[^\s@]+\.[^\s@]+$/` matches |
| Validation.EmailShapeToLower | src/context/AuthContext.tsx:151-158 | lower-casing neither makes nor breaks a valid address |
| Validation.EmailShapeOfParts | src/context/AuthContext.tsx:119-122 | a non-empty local part without white space or `@`, an `@`, and a domain with an inner `.` form a valid address |
| Validation.ValidEmailHasOneAt | src/context/AuthContext.tsx:119-122 | a valid address has no white space and exactly one `@` |
| Validation.ValidatePassword | src/context/AuthContext.tsx:124-144 | `validatePassword`: `isValid` iff no message, at most one message per rule (the messages are `ValidatePasswordErrors`) |
| Validation.FirstFailed | src/context/AuthContext.tsx:124-144 | the position of the first password rule failed, with every earlier rule met; none exactly when all are met |
| Validation.ValidatePasswordErrors | src/context/AuthContext.tsx:124-144 | `validatePassword`'s error list is the message of each failed rule, in the order length, upper, lower, digit, special |
| Validation.ValidatePasswordIff | src/context/AuthContext.tsx:143 | `isValid` holds iff the list is empty, iff every rule holds, iff no rule fails |
| Validation.FirstPasswordError | src/context/AuthContext.tsx:167-170 | for an invalid password, `errors[0]` is the message of the first rule it fails |
| Validation.PassedCount | src/context/AuthContext.tsx:124-144 | rules met plus rules failed is the number of rules |
| Validation.PassedPlusErrors | src/components/AuthModal.tsx:152-162 | the strength count plus the number of `validatePassword` errors is always 5 |
| Directory.LoadUsers | src/context/AuthContext.tsx:98-104 | `getUsersDatabase`: a missing or undecodable directory reads as empty, otherwise as stored |
| Directory.Find | src/context/AuthContext.tsx:112 | `find`/`findIndex`: the first entry with the key, every earlier one without it; none exactly when no entry has it |
| Directory.ReplaceFirst | src/context/AuthContext.tsx:110-117 | the first entry with the id is replaced and nothing else; nothing is written when no entry has it (no upsert) |
| Directory.RemoveId | src/context/AuthContext.tsx:388-390 | `filter(u => u.id !== id)`: the survivors are exactly the entries with another id |
| Directory.RemoveIdAppend | src/context/AuthContext.tsx:389 | the filter keeps the survivors' order: it distributes over concatenation |
| Directory.RemoveUniqueId | src/context/AuthContext.tsx:388-390 | with one entry holding the id, deletion removes exactly that entry |
| Directory.RemoveKeepsUnique | src/context/AuthContext.tsx:388-390 | deletion keeps ids and addresses unique |
| Directory.ReplaceUniqueId | src/context/AuthContext.tsx:110-117 | with unique ids, the replacement touches exactly the entry that has the id |
| Directory.ReplaceKeepsUnique | src/context/AuthContext.tsx:110-117 | replacing an entry by a record with the same id and address keeps both unique |
| Directory.AppendKeepsEmailsUnique | src/context/AuthContext.tsx:173-195 | appending a user whose address is absent keeps addresses unique |
| Directory.FindAfterAppend | src/context/AuthContext.tsx:194-195 | after appending a user with a fresh key, the lookup finds that new last entry |
| Directory.FindAfterReplace | src/context/AuthContext.tsx:110-117 | after a replacement, the lookup by the id finds the replacing record at the same position |
| AuthContext.NormalizeEmail | src/context/AuthContext.tsx:151 | `email.trim().toLowerCase()` has the trimmed input's length and no upper-case ASCII letter, so stored addresses are lower-case (validity and emptiness are kept: `NormalizedEmailValid`) |
| AuthContext.NormalizeEmailIdempotent | src/context/AuthContext.tsx:151 | normalizing an already normalized address changes nothing |
| AuthContext.SignUpError | src/context/AuthContext.tsx:151-178 | the error `signUp` throws, if any; no error only for a valid password, a name of two or more characters after trimming, and an unregistered address (full order: `SignUpChecksInOrder`) |
| AuthContext.SignInError | src/context/AuthContext.tsx:211-238 | the error `signIn` throws, if any; no error only for a registered address and a password of eight or more characters (full order: `SignInChecksInOrder`) |
| AuthContext.ResetError | src/context/AuthContext.tsx:314-329 | no error iff the normalized address is valid and registered (full order: `ResetChecksInOrder`) |
| AuthContext.ProfileNameError | src/context/AuthContext.tsx:352-360 | "cannot be empty" iff the name is all white space; "at least 2" iff it trims to one character; accepted iff it trims to two or more |
| AuthContext.SignUpChecksInOrder | src/context/AuthContext.tsx:151-178 | which check a sign-up fails, on the input as typed: address present, address valid, name present, name ≥ 2, password rules (first failed reported), address unregistered; success iff all pass |
| AuthContext.SignInChecksInOrder | src/context/AuthContext.tsx:211-238 | address present, address valid, password present, account exists, and only then length ≥ 8; success iff all pass |
| AuthContext.ResetChecksInOrder | src/context/AuthContext.tsx:314-329 | address present, address valid, account exists; success iff all pass |
| AuthContext.NormalizedEmailValid | src/context/AuthContext.tsx:151-158 | normalizing an address neither empties it nor changes its validity |
| AuthContext.NewEmailUser | src/context/AuthContext.tsx:184-192 | the new record: normalized address, trimmed name, both timestamps `now`, verified, provider `email`, no avatar, id starting `user_` |
| AuthContext.GoogleEmail | src/context/AuthContext.tsx:275 | `user${Date.now()}@gmail.com`: `user`, exactly the timestamp's digits, then `@gmail.com` (valid and normalized: `GoogleEmailValid`) |
| AuthContext.GoogleEmailInjective | src/context/AuthContext.tsx:275 | different clock readings mint different addresses (through `DecimalRoundTrip`) |
| AuthContext.NewGoogleUser | src/context/AuthContext.tsx:283-292 | the new Google record: minted address, name "Google User", the fixed avatar, verified, provider `google`, id starting `google_` |
| AuthContext.GoogleEmailValid | src/context/AuthContext.tsx:275 | the address minted from the clock is valid and already normalized |
| AuthContext.Merge | src/context/AuthContext.tsx:366 | `{ ...user, ...data }`: each supplied field wins, each other field is kept |
| AuthContext.MergeLaws | src/context/AuthContext.tsx:366 | an empty patch changes nothing, and applying a patch twice is applying it once |
| AuthContext.TrimmedPatch | src/context/AuthContext.tsx:352-361 | a supplied name is replaced by its trimmed form; every other field is untouched |
| AuthContext.DuplicateEmailRejected | src/context/AuthContext.tsx:173-178 | a registered address can never sign up again |
| AuthContext.WeakPasswordReportsFirstRule | src/context/AuthContext.tsx:167-170 | a sign-up refused for its password reports the first rule the password fails |
| AuthContext.SignUpThenSignIn | src/context/AuthContext.tsx:184-237 | after a successful sign-up, signing in with the same credentials passes every check and finds the new record |
| AuthContext.SignUpKeepsDirectoryUnique | src/context/AuthContext.tsx:173-195 | sign-up keeps addresses unique in the directory, and ids too when the new id is fresh |
| AuthContext.SignInTouchesOnlyLastLogin | src/context/AuthContext.tsx:240-246 | with unique ids, sign-in rewrites only the matched entry, and only its `lastLogin` |
| AuthContext.AuthProvider.constructor | src/context/AuthContext.tsx:44-46 | mounting: no user, `loading` true, storage as found |
| AuthContext.AuthProvider.ClearAuthStorage | src/context/AuthContext.tsx:81-85 | both session slots emptied and the user cleared; directory untouched |
| AuthContext.AuthProvider.CreateSession | src/context/AuthContext.tsx:87-96 | snapshot stored, token for the user's id expiring seven days after `now`, user set; directory untouched |
| AuthContext.AuthProvider.SaveUsersDatabase | src/context/AuthContext.tsx:106-108 | the directory slot holds exactly the given list; nothing else changes |
| AuthContext.AuthProvider.UpdateUserInDatabase | src/context/AuthContext.tsx:110-117 | the directory becomes `ReplaceFirst` of the stored list, or is left as it was when no entry has the id |
| AuthContext.AuthProvider.InitializeAuth | src/context/AuthContext.tsx:53-79 | either slot empty: nothing changes; undecodable or expired: both slots cleared; unexpired: the user is restored with `lastLogin := now`, which is also written to the directory; `loading` ends false |
| AuthContext.AuthProvider.SignUp | src/context/AuthContext.tsx:146-205 | a failed check changes nothing and reports it; otherwise the new record is appended and signed in with a fresh token, and it agrees with the directory when its id is fresh |
| AuthContext.AuthProvider.SignIn | src/context/AuthContext.tsx:207-253 | a failed check changes nothing; otherwise the matched entry gets `lastLogin := now` in place (same length), is signed in, and agrees with the directory |
| AuthContext.AuthProvider.SignOut | src/context/AuthContext.tsx:255-266 | session cleared, directory kept, `loading` ends false |
| AuthContext.AuthProvider.SignInWithGoogle | src/context/AuthContext.tsx:268-308 | a new minted address appends a Google record; a known one refreshes that entry's `lastLogin`; either way that record is signed in and agrees with the directory (for a new address, when its id is fresh) |
| AuthContext.AuthProvider.ResetPassword | src/context/AuthContext.tsx:310-341 | no state changes; the outcome is the first failed check or success |
| AuthContext.AuthProvider.UpdateProfile | src/context/AuthContext.tsx:343-374 | with nobody signed in, refused before `loading` is touched; a bad name is refused with nothing changed; otherwise the merged record replaces its directory entry and is signed in again |
| AuthContext.AuthProvider.DeleteAccount | src/context/AuthContext.tsx:376-399 | with nobody signed in, refused; otherwise every entry with the id leaves the directory and the session is cleared |
| AuthContext.SignUpSignOutSignIn | src/context/AuthContext.tsx:146-253 | signing up, out, and in again succeeds and the signed-in user is exactly the record sign-up created, with the later `lastLogin` |
| AuthModal.WithField | src/components/AuthModal.tsx:42-44 | typing sets the named field and leaves the other two as they were |
| AuthModal.EmailFieldError | src/components/AuthModal.tsx:55-61 | no e-mail error exactly for an address `validateEmail` accepts (the messages: `EmailFieldErrorRule`) |
| AuthModal.PasswordFieldError | src/components/AuthModal.tsx:63-80 | no check on the reset screen; "Password is required" for an empty password on the other two; on the sign-up screen no error only when every rule holds (both directions: `SignUpPasswordAgrees`) |
| AuthModal.NameFieldError | src/components/AuthModal.tsx:82-89 | on the sign-up screen only: "Name is required" exactly for an all-white-space name, "Name must be at least 2 characters" exactly for a name that trims to one character, no error otherwise |
| AuthModal.FormErrors | src/components/AuthModal.tsx:52-91 | the error map has an entry for a field exactly when that field's check fails, holding that check's message |
| AuthModal.FormAcceptedIff | src/components/AuthModal.tsx:91-92 | `validateForm` returns true iff the e-mail, password and name checks all pass |
| AuthModal.ClearFieldError | src/components/AuthModal.tsx:46-49 | the keys stay the same, the typed field's message becomes empty, and every other message is kept |
| AuthModal.EmailFieldErrorRule | src/components/AuthModal.tsx:55-61 | "Email is required" iff the input is all white space; "Please enter a valid email address" iff it is not blank and does not match the pattern; no error iff the trimmed input matches |
| AuthModal.ModeRules | src/components/AuthModal.tsx:63-89 | the reset screen checks only the e-mail; only the sign-up screen checks the name; the e-mail check is the same on every screen |
| AuthModal.SignInPasswordOnlyRequired | src/components/AuthModal.tsx:64-67 | on the sign-in screen the only password error is "Password is required", exactly for an empty password |
| AuthModal.SignUpPasswordAgrees | src/components/AuthModal.tsx:67-79 | on the sign-up screen the password passes iff `validatePassword` accepts it; otherwise the message is the dialog's wording of the first failed rule |
| AuthModal.SignUpFormAgrees | src/components/AuthModal.tsx:52-106 | the sign-up form passes iff the context's `signUp` would succeed or fail only because the address is taken |
| AuthModal.SignInFormAgrees | src/components/AuthModal.tsx:52-112 | the sign-in form passes iff the context's `signIn` gets past its presence and format checks (it may still report no account or a short password) |
| AuthModal.ResetFormAgrees | src/components/AuthModal.tsx:52-116 | the reset form passes iff `resetPassword` fails at most on an unknown address |
| AuthModal.PasswordStrength | src/components/AuthModal.tsx:152-168 | `getPasswordStrength`: each tier comes with its own colour class and label (red/Weak, yellow/Medium, blue/Good, green/Strong) |
| AuthModal.StrengthTiers | src/components/AuthModal.tsx:152-168 | Strong with no `validatePassword` errors, Good with one, Medium with two, Weak with three or more; Strong iff the password is valid |
| AuthModal.StrongIffSignUpAccepts | src/components/AuthModal.tsx:152-168 | the meter shows Strong exactly for the passwords the sign-up screen accepts |
| AuthModal.AuthForm.constructor | src/components/AuthModal.tsx:13-22 | the dialog opens on the requested screen with an empty form and no errors |
| AuthModal.AuthForm.SwitchMode | src/components/AuthModal.tsx:26-35 | changing screen (or reopening) empties the form and its errors |
| AuthModal.AuthForm.HandleInputChange | src/components/AuthModal.tsx:42-50 | the field takes the value (`WithField`) and its shown error is blanked (`ClearFieldError`); the screen is unchanged |
| AuthModal.AuthForm.ValidateForm | src/components/AuthModal.tsx:52-93 | the shown errors become `FormErrors` of the current screen and form, and the result is true iff there are none |

## Left out

- The simulated network delays (`setTimeout` promises) are not modelled. Each operation is one atomic step, so overlapping operations and changes made by other tabs are not covered.
- JSON and base64 encoding are not modelled. A slot holds either a decoded value or `Corrupt`. A snapshot that parses but lacks fields is treated as a well-formed `User`.
- A directory that parses to something other than an array is not modelled. It would make `find` throw.
- Exceptions from `localStorage` itself (a full quota, disabled storage) are not modelled. The code paths that exist only for them are therefore absent: "Failed to delete account", "Google sign-in failed. Please try again.", and the `error.message || 'Failed to …'` fallbacks. Every modelled error has a non-empty message, so those fallbacks never apply.
- Text.ToLower: only ASCII letters are lower-cased. JavaScript's full Unicode case mapping, which can change a string's length, is not modelled.
- AuthContext.SignUpError, AuthContext.SignInError, AuthContext.ProfileNameError, AuthModal.NameFieldError, AuthModal.PasswordFieldError and Validation.Satisfies count lengths in Unicode scalar values, not UTF-16 code units. A character outside the Basic Multilingual Plane counts once here but twice in JavaScript. So a name of one emoji passes `trimmedName.length < 2` in the code but is refused by the model, and a password's eight-character minimum differs the same way.
- AuthContext.Merge: a patch field set explicitly to `undefined` (which would erase the field under spread) is modelled as not supplied.
- AuthContext.AuthProvider.InitializeAuth: the `console.error` on a failed restore is not modelled.
- AuthContext.AuthProvider.ResetPassword: the `console.log` that stands in for sending the reset mail is not modelled.
- `useAuth`'s error when used outside the provider is not modelled. It is a React wiring check, not state.
- The dialog's submit handler, Google button, titles, success banners and close timers are rendering and timing. Their effect on the context is covered by the form/context agreement lemmas.
- The `UserProfile` component and the rest of the site (pages, cart, navigation) are not part of this model.
