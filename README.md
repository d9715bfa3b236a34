# Password manager vault core, modelled in Dafny

This project models the server side of a small PHP password manager. The model covers the three
classes under `PasswordManager/classes/`:

- **`Encryption`**: the key is SHA-256 of the configured secret. A stored blob is
  `base64(iv ++ AES-256-CBC(data))`, and decryption splits the first 16 bytes back off as the IV.
  Master passwords are hashed with bcrypt at cost 12.
- **`Auth`**: registration, with its validation checks in a fixed order, and login by email or by
  username, where every failure gives the same message. Also: the session, which is dropped after
  1800 idle seconds and refreshed on every check; logout; password change; and profile update.
- **`PasswordEntry`**: the per-user vault of credential records. It covers create, filtered and
  searched listing newest first, read, partial update, delete, and the category and count queries.
  Every statement is scoped to the owner.

The modules, one per file:

- `Wrappers` (`wrappers.dfy`): `Option`, which stands for PHP's `false`/`null` results.
- `Strings` (`strings.dfy`): the PHP string behaviour the core relies on:
  - truthiness, where `""` and `"0"` are false;
  - `trim` with its six characters;
  - ASCII `strtolower`;
  - the `/^[a-zA-Z0-9_]+$/` pattern, including the trailing newline its `$` admits;
  - the byte-wise ordering of `ORDER BY category`.
- `Crypto` (`encryption.dfy`): the `Encryption` value and its framing.
  - AES-256-CBC, base64, SHA-256 and bcrypt are fields of a `Primitives` value.
  - What those libraries are taken to guarantee is gathered in one predicate, `Sound`. Every
    theorem that needs one of those guarantees assumes `Sound` explicitly.
- `Identity` (`auth.dfy`): the class `Auth`.
  - The users table is a map from id to row plus the auto-increment counter.
  - `$_SESSION` is a two-state `Session` value.
  - Time and the fresh bcrypt salt are parameters, and `FILTER_VALIDATE_EMAIL` is a predicate the
    object is built with.
- `Vault` (`vault.dfy`): the shared `password_entries` table is the class `EntryTable`.
  - The class `PasswordEntry` holds one user's operations over that table.
  - `NOW()` and the IVs are parameters.
  - `field LIKE '%term%'` under the column collation is a predicate the object is built with.

Behaviours of the code that are easy to miss, all kept by the model:

- `encrypt` does not report a cipher failure. PHP's `false` concatenates as `""`, so the stored
  blob holds the IV alone. `Crypto.CipherFailureStoresUndecryptable` shows that such a blob then
  decrypts to `false`.
- `changePassword` checks the new password's length before it verifies the current password.
- `delete` returns the statement's success, which is `true` even when no row matched.
- `register` answers a taken email with "Email already registered". `updateProfile` answers with
  "Email already in use".
- Notes of `"0"` are falsy in PHP, so they are stored and read back as `""`
  (`Vault.CreateReadBack`).

## Model

| member | source | states |
|---|---|---|
| Strings.Truthy | PasswordManager/classes/PasswordEntry.php:40 | PHP truthiness of a string: a truthy string is non-empty, and every string of two or more bytes is truthy |
| Strings.TrimLeftSpec | PasswordManager/classes/Auth.php:28 | the left half of `trim` drops exactly the leading run of space, tab, LF, CR, NUL and vertical tab; what remains is a suffix of the input that starts with none of them |
| Strings.TrimRightSpec | PasswordManager/classes/Auth.php:28 | the right half of `trim` drops exactly the trailing run of those six characters; what remains is a prefix of the input that ends with none of them |
| Strings.Trim | PasswordManager/classes/Auth.php:28 | `trim` keeps one contiguous piece of its input (a prefix of what `ltrim` keeps) that neither starts nor ends with a trim character, and every character it drops on either side is a trim character |
| Strings.TrimIdempotent | PasswordManager/classes/Auth.php:224 | trimming a trimmed username or email changes nothing |
| Strings.ToLower | PasswordManager/classes/Auth.php:37 | `strtolower` keeps the length and lowers each character on its own, ASCII letters only |
| Strings.ToLowerIdempotent | PasswordManager/classes/Auth.php:37 | a lowered email is lower case, and lowering it again changes nothing |
| Strings.MatchesUsernamePattern | PasswordManager/classes/Auth.php:32 | the username pattern accepts every non-empty run of letters, digits and underscores; what it accepts starts with such a character, and is such a run whenever it does not end in a newline |
| Strings.UsernamePatternOnTrimmed | PasswordManager/classes/Auth.php:32 | on a trimmed username, the pattern (whose `$` admits one final newline) accepts exactly the non-empty strings of letters, digits and underscores |
| Strings.LexIrreflexive | PasswordManager/classes/PasswordEntry.php:184 | the category ordering is irreflexive |
| Strings.LexTotal | PasswordManager/classes/PasswordEntry.php:184 | any two different categories are ordered one way or the other |
| Strings.LexAsymmetric | PasswordManager/classes/PasswordEntry.php:184 | the category ordering is asymmetric |
| Strings.LexTransitive | PasswordManager/classes/PasswordEntry.php:184 | the category ordering is transitive |
| Strings.InsertSorted | PasswordManager/classes/PasswordEntry.php:184 | placing a category in an ascending duplicate-free list keeps it ascending and duplicate-free, and adds exactly that category |
| Crypto.Split | PasswordManager/classes/Encryption.php:45-50 | the two `substr` calls cut the decoded blob into an IV of at most 16 bytes and the rest, which together give the blob back; a blob of 16 bytes or fewer leaves an empty ciphertext |
| Crypto.SplitFrame | PasswordManager/classes/Encryption.php:36-50 | splitting the concatenation of a 16-byte IV and a ciphertext recovers both |
| Crypto.FrameSplit | PasswordManager/classes/Encryption.php:45-50 | only restates `Split`'s second ensures (the two parts concatenate back to the decoded blob), stated as the other half of the `SplitFrame` pair |
| Crypto.Encryption.Encrypt | PasswordManager/classes/Encryption.php:23-37 | the blob is longer than an IV; with a 32-byte key it decodes to the IV followed by a non-empty ciphertext |
| Crypto.Encryption.Decrypt | PasswordManager/classes/Encryption.php:44-59 | a blob that decodes to 16 bytes or fewer decrypts to `false` rather than failing |
| Crypto.NewEncryption | PasswordManager/classes/Encryption.php:13-16 | the key fixed at construction is 32 bytes |
| Crypto.EncryptLayout | PasswordManager/classes/Encryption.php:24-36 | with a 32-byte key the cipher succeeds, and the decoded blob splits into the very IV and ciphertext that were concatenated |
| Crypto.RoundTrip | PasswordManager/classes/Encryption.php:23-59 | decrypting what `encrypt` produced gives the plaintext back |
| Crypto.SharedSecretRoundTrip | PasswordManager/classes/Encryption.php:13-59 | two `Encryption` objects built from the same secret decrypt each other's blobs |
| Crypto.FreshIvDistinguishes | PasswordManager/classes/Encryption.php:25-36 | encryptions under different IVs give blobs whose decoded IV prefixes differ, so the blobs differ, whatever the plaintexts |
| Crypto.CipherFailureStoresUndecryptable | PasswordManager/classes/Encryption.php:27-36 | when the cipher fails, the blob decodes to the IV alone and decrypts to `false` |
| Crypto.Encryption.HashPassword | PasswordManager/classes/Encryption.php:66-68 | a pure delegation to bcrypt at cost 12; its contract is the verify half of `HashThenVerify`: the hash verifies the password it was made from |
| Crypto.Encryption.VerifyPassword | PasswordManager/classes/Encryption.php:76-78 | a pure delegation to `password_verify`; its contract is the other half of `HashThenVerify`: it accepts a password against any cost-12 bcrypt hash of that password |
| Crypto.HashThenVerify | PasswordManager/classes/Encryption.php:66-78 | a password verifies against its own bcrypt hash |
| Identity.ShapeError | PasswordManager/classes/Auth.php:28-40 | on the trimmed username and trimmed lowered email, the first failure among username length 3-50, username characters and email syntax, each named exactly when it is the first to fail |
| Identity.RegistrationError | PasswordManager/classes/Auth.php:26-59 | the first failure among username length, characters, email syntax, password length of at least 8, username taken, email taken; each message exactly when it is the first to fail, and none exactly when every check passes |
| Identity.ProfileError | PasswordManager/classes/Auth.php:224-252 | the same shape checks, then username and email each taken by a user other than the caller, in that order, with the same iff for each message |
| Identity.CheckSession | PasswordManager/classes/Auth.php:124-138 | a check succeeds exactly when the session is authenticated and idle for at most 1800 seconds; success refreshes `last_activity` to now and keeps the rest, failure leaves the session empty |
| Identity.CheckAllSucceed | PasswordManager/classes/Auth.php:128-135 | a run of checks all succeed exactly when the session starts authenticated and no two consecutive accesses are more than 1800 seconds apart |
| Identity.ExpiryIsFinal | PasswordManager/classes/Auth.php:128-131 | once a check fails, every later check fails |
| Identity.AnonymousStaysOut | PasswordManager/classes/Auth.php:133-137 | no check succeeds on an empty session |
| Identity.CheckAll | PasswordManager/classes/Auth.php:124-138 | one answer per `isAuthenticated` call; the first succeeds exactly when the session is authenticated and idle at most 1800 seconds, and each later one exactly when the call before it succeeded and at most 1800 seconds separate the two |
| Identity.IsLoginTarget | PasswordManager/classes/Auth.php:81-92 | a row `login` selects exists; when the trimmed identifier is a valid email, the row's email is the lowered identifier (and is lower case); otherwise the row's username is the trimmed identifier |
| Identity.LoginIgnoresPadding | PasswordManager/classes/Auth.php:81 | trimming the identifier first never changes which row a login selects |
| Identity.AddUserKeepsValid | PasswordManager/classes/Auth.php:61-68 | inserting a user with a free username and a free lower-case email under the next id keeps ids below the counter and usernames and emails unique |
| Identity.ReplaceUserKeepsValid | PasswordManager/classes/Auth.php:254-258 | rewriting a row with a username and email no other row holds keeps the table valid |
| Identity.SameIdentityKeepsValid | PasswordManager/classes/Auth.php:97-99 | rewriting a row without touching username or email keeps the table valid |
| Identity.LoginTargetUnique | PasswordManager/classes/Auth.php:84-94 | in a valid table an identifier selects at most one row |
| Identity.FindLoginTarget | PasswordManager/classes/Auth.php:81-94 | the lookup by lowered email (when the trimmed identifier is an email) or by exact username finds the selected row if there is one, and it is the only one |
| Identity.Authenticate | PasswordManager/classes/Auth.php:81-96 | a row is found exactly when the identifier selects a row whose hash verifies the password |
| Identity.Auth.constructor | PasswordManager/classes/Auth.php:14-17 | the service starts over the given valid user table, session and `Encryption`, and its invariant holds |
| Identity.Auth.CreateSession | PasswordManager/classes/Auth.php:111-118 | the session becomes authenticated as the given id, username and email, with `last_activity` now |
| Identity.Auth.Register | PasswordManager/classes/Auth.php:26-72 | on a validation failure, that message and no change; otherwise one new row under the next id with the trimmed username, lowered email and hash, the caller logged in as it, and the table still valid |
| Identity.Auth.Login | PasswordManager/classes/Auth.php:80-106 | success exactly when the identifier selects a row whose hash verifies; every failure is the same "Invalid credentials" and changes nothing; success sets that row's `last_login` and logs in as it |
| Identity.Auth.IsAuthenticated | PasswordManager/classes/Auth.php:124-138 | answer and new session are those of the timeout check |
| Identity.Auth.GetUserId | PasswordManager/classes/Auth.php:144-147 | the session's user id, or null when there is none, without a timeout check |
| Identity.Auth.GetCurrentUser | PasswordManager/classes/Auth.php:153-163 | after the timeout check, the session's id, username and email, or null when the check fails |
| Identity.Auth.Logout | PasswordManager/classes/Auth.php:168-179 | the session is empty afterwards, whatever it held, so logging out twice is the same as once |
| Identity.Auth.ChangePassword | PasswordManager/classes/Auth.php:187-210 | not authenticated first, then the new password's length, then the current password; the hash and `updated_at` change only when the current password verifies |
| Identity.Auth.UpdateProfile | PasswordManager/classes/Auth.php:218-263 | behind the timeout check and the profile checks, only the caller's row changes (username, email, `updated_at`), the session copies follow, and the table stays valid |
| Vault.OpenField | PasswordManager/classes/PasswordEntry.php:90-91 | a falsy stored value reads back as "", and every stored value of two or more bytes is decrypted |
| Vault.SealNotes | PasswordManager/classes/PasswordEntry.php:40 | falsy notes are stored as ""; when the cryptographic libraries behave as assumed, the stored value is truthy exactly when the notes are |
| Vault.Decrypted | PasswordManager/classes/PasswordEntry.php:89-92 | a fetched row comes back with id, owner, title, username, url, category and timestamps as stored; a falsy stored secret or notes reads as "", and one of two or more bytes is decrypted (the same step at lines 107-110) |
| Vault.NewRow | PasswordManager/classes/PasswordEntry.php:39-54 | the inserted row is the caller's, with title, username, url and category verbatim and both timestamps now; the stored secret is always truthy; the stored notes are "" for falsy notes and truthy exactly when the notes are |
| Vault.Patched | PasswordManager/classes/PasswordEntry.php:132-166 | owner and `created_at` kept, `updated_at` now; each plain field is the supplied value or the old one; an unsupplied secret or notes is kept, a supplied secret is stored truthy, supplied falsy notes are stored as "" and supplied notes are stored truthy exactly when they are truthy |
| Vault.ItemAt | PasswordManager/classes/PasswordEntry.php:132-155 | the SET item for a supplied column sets that column to the supplied value (the encrypted secret, the sealed notes) |
| Vault.AddIfSet | PasswordManager/classes/PasswordEntry.php:132-155 | one `isset` step: given the SET list built from the earlier columns, it appends this column's item exactly when the column is supplied, giving the list built from one column more |
| Vault.ExpectedListed | PasswordManager/classes/PasswordEntry.php:132-155 | after the `isset` checks of the first n columns, the SET list holds the supplied columns before n, once each, in column order, each with its supplied value |
| Vault.ListedFacts | PasswordManager/classes/PasswordEntry.php:132-155 | such a list is strictly increasing in column order, holds only supplied columns, and is exactly as long as the number of supplied columns |
| Vault.ListedEffect | PasswordManager/classes/PasswordEntry.php:132-163 | applied to a row, such a list replaces exactly the supplied columns with their supplied values and keeps every other column |
| Vault.SetList | PasswordManager/classes/PasswordEntry.php:129-159 | the SET list has one item per supplied field: its columns strictly increase in the order title, username, password, url, notes, category, every one is supplied, and there are as many as supplied fields; it is empty exactly when no field is supplied, and applied to a row it replaces exactly the supplied fields |
| Vault.InsertNewestFirst | PasswordManager/classes/PasswordEntry.php:82 | placing a row in a newest-first list keeps it newest first, and the result holds the old rows and that row with their multiplicities |
| Vault.CategoryFilter | PasswordManager/classes/PasswordEntry.php:69 | the category filter is the given category or none; it is never "", "0" or "all", and any other category of two or more bytes is applied |
| Vault.SearchTerm | PasswordManager/classes/PasswordEntry.php:74 | the search term is the given one or none; it is never "" or "0", and any term of two or more bytes is applied |
| Vault.Selected | PasswordManager/classes/PasswordEntry.php:66-80 | a selected row is the caller's and, under a category filter, in that category; with no filter in force every row of the caller is selected |
| Vault.NoFilterValues | PasswordManager/classes/PasswordEntry.php:69-80 | the category "all", an empty category and an empty search term select exactly what an absent filter selects |
| Vault.FetchOne | PasswordManager/classes/PasswordEntry.php:82-86 | fetching one more selected row into a newest-first result keeps it newest first, with exactly one entry per fetched id, each equal to the table's row |
| Vault.Listing | PasswordManager/classes/PasswordEntry.php:86-94 | decrypting every row of a complete newest-first fetch gives each selected row of the caller exactly once, decrypted, newest first |
| Vault.CountsExactTail | PasswordManager/classes/PasswordEntry.php:193-197 | the `GROUP BY` lines after the first still count exactly, and the first line's category appears nowhere after it |
| Vault.OwnedInSplit | PasswordManager/classes/PasswordEntry.php:193-197 | the rows of one category and the rows of other categories together count as the rows of all of them |
| Vault.SumOfCounts | PasswordManager/classes/PasswordEntry.php:193-197 | the counts of distinct categories add up to the rows in those categories |
| Vault.CountsSumToTotal | PasswordManager/classes/PasswordEntry.php:193-207 | the per-category counts of a user sum to that user's total count |
| Vault.SealedIsTruthy | PasswordManager/classes/PasswordEntry.php:89-92 | a stored encrypted value is never falsy, so reading it back always decrypts it |
| Vault.SecretReadBack | PasswordManager/classes/PasswordEntry.php:89-90 | a stored encrypted secret reads back as the plaintext |
| Vault.NotesReadBack | PasswordManager/classes/PasswordEntry.php:89-91 | stored notes read back as given when truthy and as "" otherwise |
| Vault.CreateReadBack | PasswordManager/classes/PasswordEntry.php:39-56 | a created row reads back with the given title, username, url and category, the secret decrypted to itself, and the notes as given when truthy and as "" otherwise |
| Vault.UpdateReadBack | PasswordManager/classes/PasswordEntry.php:132-166 | after an update the supplied fields read back as supplied (notes "" when falsy), the others as before, and owner and creation time are kept |
| Vault.SearchIgnoresSecrets | PasswordManager/classes/PasswordEntry.php:74-80 | whether a row matches the listing filters does not depend on its stored secret or notes |
| Vault.PasswordEntry.Create | PasswordManager/classes/PasswordEntry.php:31-57 | one new row under the next id, owned by the caller, fields stored verbatim, secret encrypted, notes encrypted only when truthy; no other user's row changes |
| Vault.PasswordEntry.Select | PasswordManager/classes/PasswordEntry.php:65-86 | exactly the caller's rows that pass the category filter (truthy and not "all") and the search over title, username and url (truthy term), each once, newest first, each equal to its stored row |
| Vault.PasswordEntry.DecryptAll | PasswordManager/classes/PasswordEntry.php:88-92 | each fetched row, in order, with its secret and notes decrypted (or "" when the stored value is falsy) |
| Vault.PasswordEntry.GetAll | PasswordManager/classes/PasswordEntry.php:65-95 | the rows `Select` picks, each exactly once, owned by the caller, newest first, with secret and notes decrypted |
| Vault.PasswordEntry.GetById | PasswordManager/classes/PasswordEntry.php:102-113 | `false` alike for a missing id and for another user's row, else the decrypted row |
| Vault.PasswordEntry.Update | PasswordManager/classes/PasswordEntry.php:121-167 | fails with no change when the row is not the caller's or no field is supplied; otherwise exactly the supplied fields and `updated_at` change, in that row only |
| Vault.PasswordEntry.Delete | PasswordManager/classes/PasswordEntry.php:174-177 | removes the row only when it is the caller's, and returns true either way |
| Vault.PasswordEntry.GetCategories | PasswordManager/classes/PasswordEntry.php:183-187 | the caller's distinct categories, ascending |
| Vault.PasswordEntry.GetCountByCategory | PasswordManager/classes/PasswordEntry.php:193-197 | one line per category of the caller, with that category's number of rows |
| Vault.PasswordEntry.GetTotalCount | PasswordManager/classes/PasswordEntry.php:203-207 | the number of the caller's rows |
| Vault.PasswordEntry.constructor | PasswordManager/classes/PasswordEntry.php:15-19 | the service is bound to the given user id, table and `Encryption` |
| Vault.Isolation | PasswordManager/classes/PasswordEntry.php:102-177 | a row one user creates cannot be seen, updated or deleted by another user sharing the table, and reads back for its owner as the whole record created: owner, title, secret, empty username, url and notes, category `general`, both timestamps |

## Left out

- Storage failures are not modelled: every statement succeeds. So `create` never returns `false`,
  and the model has neither "Registration failed. Please try again." nor "Failed to update
  profile". `changePassword` cannot fall through on a failed write, and `update` and `delete`
  never return a failed statement.
- The database and PDO are not modelled. `Database.php` and the configuration are not part of
  this model.
- SQL collation is not modelled.
  - Username and email uniqueness, and the category filter, use exact equality.
  - `LIKE` is the abstract predicate `like`; `%` and `_` inside a search term are passed to it
    unescaped.
  - `ORDER BY category` is byte-wise (`Strings.LexLess`).
  - The order among rows with equal `updated_at`, and the order of the `GROUP BY` lines, are left
    open.
- Vault.PasswordEntry.Select: the SQL engine's sorting is an insertion loop that stands for
  `ORDER BY`, and it does not fix the order of ties.
- `getCountByCategory` returns its count as a number, where PDO would give strings.
- AES-256-CBC, base64, SHA-256 and bcrypt are not implemented. `Crypto.Sound` states what is
  assumed of them.
  - bcrypt's 72-byte truncation means a different password can verify. So the model assumes
    nothing about a failed verification.
- `FILTER_VALIDATE_EMAIL` is not implemented; it is the object's `validEmail` predicate.
- PHP strings are byte strings; the model uses `string` with one character per byte.
- The randomness of `openssl_random_pseudo_bytes` and of bcrypt's salt is not modelled. The IVs
  and the salt are parameters. `Crypto.FreshIvDistinguishes` assumes they differ between calls.
- `time()` and `NOW()` are not modelled; they are the `now` parameter.
- Cookies and `session_start`/`session_destroy` are not modelled. Logout is the session becoming
  empty.
- A session holding `last_activity` without `authenticated === true` is not modelled. This class
  never writes such a session.
- Concurrent requests are out of scope.
- `PasswordManager/api/index.php` is not part of this model. It checks that the two passwords
  match before `register`, and it calls `isAuthenticated` before every vault action.
- Update data is typed `Option<string>`, where `None` means absent or null. Non-string JSON values
  are not modelled.
- The default arguments of `create` (empty strings and category `general`) are left to the caller;
  `Create` takes every field.
- Identity.Auth.Register: the stored `created_at` is the `now` parameter. The other timestamps are
  `None` until login or update sets them.
