# Verified model of the user-data backend: log redaction, Basic-auth extraction, user store and registration

This Dafny project models four small pieces of a Python authentication backend and proves properties of them:

- **Log redaction** (`Redaction`, from `0x00-personal_data/filtered_logger.py`). `filter_datum` rewrites a log message with `re.sub` and the pattern `(f1|...|fn)=.+?<sep>`. Each match becomes `<field>=<redaction><sep>`. The regular expression is modelled as an explicit left-to-right scanner. At each position the alternatives are tried in list order. A value is the lazy `.+?`: at least one character, never a newline, and it ends at the first separator after its first character. After a match, scanning resumes behind the consumed separator. `RedactingFormatter.format` applies this to the rendered line with `***` and `;`. `PII_FIELDS` is the default field tuple.
- **Basic-auth header extraction** (`BasicAuth`, from `0x01-Basic_authentication/api/v1/auth/basic_auth.py`). It returns the text after a literal, case-sensitive `"Basic "` prefix. An absent header, a header that is not a string, or a header without that prefix gives `None`. The scheme name comes from section 2 of RFC 7617, which treats it case-insensitively. The code does not.
- **User store** (`UserStore`, from `0x03-user_authentication_service/db.py`). The store is an immutable sequence of user records in storage order. Its operations are add, find-first-by-equality-filters and update-named-attributes. Each returns its result and the store after the call. SQLAlchemy's exceptions become values of a `Result`/`Outcome` type: `NoResultFound`, `InvalidRequestError` and `ValueError`.
- **Registration and login** (`AuthService`, from `0x03-user_authentication_service/auth.py`). `register_user` and `valid_login` run on the store. bcrypt is a pair of functions passed in by the caller, and the salt is a parameter. The one law about them, that a password checks against every hash made from it, is a hypothesis of the lemma that needs it.

All files are verified together: `dafny verify *.dfy`.

## Model

| member | source | states |
|---|---|---|
| Redaction.FilterDatum | 0x00-personal_data/filtered_logger.py:14-30 | If no listed field is followed by `=`, a value of at least one character and the separator, the message is returned unchanged. |
| Redaction.Scan | 0x00-personal_data/filtered_logger.py:29-30 | A loop over the message, one scan step per iteration, returns exactly `filter_datum`'s result for every input. |
| Redaction.RedactFrom | 0x00-personal_data/filtered_logger.py:29-30 | With a placeholder that holds no newline, the substituted text has exactly as many line breaks as the text it was made from, because a value never holds a newline. |
| Redaction.Replacement | 0x00-personal_data/filtered_logger.py:30 | With a non-empty placeholder that holds neither the separator nor a newline, the text that replaces a match is itself a match of the same field, covering the whole replacement. |
| Redaction.Format | 0x00-personal_data/filtered_logger.py:45-48 | The formatter returns the rendered line unchanged when no listed field is followed by `=`, a value and `;` anywhere in it. |
| Redaction.RedactionKeepsLineCount | 0x00-personal_data/filtered_logger.py:29-48 | `filter_datum` with a newline-free placeholder, and so the formatter with `***`, never joins or splits log lines: the line-break count is unchanged. |
| Redaction.ValueEnd | 0x00-personal_data/filtered_logger.py:29 | `.+?<sep>` accepts a value exactly when it has at least one character, contains no newline, and is followed by the first separator after its first character. |
| Redaction.MatchEnd | 0x00-personal_data/filtered_logger.py:29 | `f=.+?<sep>` matches at a position exactly when the field name, `=`, a value and the separator appear there. |
| Redaction.MatchAt | 0x00-personal_data/filtered_logger.py:29 | At one position the first listed field that leads to a match wins. There is no match exactly when no listed field matches there. |
| Redaction.MatchAtFindsFirstAlternative | 0x00-personal_data/filtered_logger.py:29 | Conversely, a field that matches at a position, with no earlier-listed field matching there, is the match found, with its unique end. |
| Redaction.SpanEndUnique | 0x00-personal_data/filtered_logger.py:29 | A match of a given field at a given position has only one possible end. |
| Redaction.UnmatchedSuffixIsCopied | 0x00-personal_data/filtered_logger.py:29-30 | Where no position matches, every character is copied verbatim and in order. |
| Redaction.NoMatchLeavesMessage | 0x00-personal_data/filtered_logger.py:29-30 | A message without any match is left unchanged by the scan. |
| Redaction.LeftmostMatchIsRedacted | 0x00-personal_data/filtered_logger.py:29-30 | The leftmost match becomes exactly `field + "=" + redaction + separator`, using the first-listed field that matches there. The text before it is kept verbatim, and scanning resumes right after the consumed separator. |
| Redaction.ValueStopsAtFirstSeparator | 0x00-personal_data/filtered_logger.py:29 | `password=secret;x;` becomes `password=***;x;`: only `secret` is redacted. |
| Redaction.EmptyValueSwallowsSeparator | 0x00-personal_data/filtered_logger.py:29 | In `a=;x;` the value takes the first separator and runs to the next, giving `a=***;`. |
| Redaction.FieldMatchesInsideLongerKey | 0x00-personal_data/filtered_logger.py:29 | Field names match as substrings: with `name`, `username=bob;` becomes `username=***;`. |
| Redaction.EmptyFieldListRedactsEveryValue | 0x00-personal_data/filtered_logger.py:29 | An empty field list joins to `()`, which redacts every `=value;`: `a=1;` becomes `a=***;`. |
| Redaction.FirstListedFieldWins | 0x00-personal_data/filtered_logger.py:29 | Alternation order decides the match at one position: `a=b=c;` gives `a=***;` with `a` listed first and `a=b=***;` with `a=b` first. |
| Redaction.ValueNeverSpansNewline | 0x00-personal_data/filtered_logger.py:29 | A value never crosses a newline: `password=se\ncret;` is left unchanged. |
| Redaction.FormatRedactsRenderedLine | 0x00-personal_data/filtered_logger.py:37-48 | The formatter redacts the rendered line with `***` and `;`: `name=bob;password=secret;` with `["password"]` gives `name=bob;password=***;`. |
| Redaction.PiiFieldsQuirk | 0x00-personal_data/filtered_logger.py:51-61 | The default tuple has 8 entries. It contains `ssnpassword`, and neither `ssn` nor `password`. |
| Redaction.DefaultFieldsKeepPassword | 0x00-personal_data/filtered_logger.py:51-61 | With the default tuple, `password=secret;` passes through the formatter unredacted. |
| Redaction.IntendedFieldsRedactPassword | 0x00-personal_data/filtered_logger.py:51-61 | With the comma after `ssn` restored, the 9 fields redact `password=secret;` to `password=***;`. |
| BasicAuth.ExtractBase64AuthorizationHeader | 0x01-Basic_authentication/api/v1/auth/basic_auth.py:11-30 | `None` and non-string headers give `None`. A string gives a result exactly when it starts with `"Basic "`. The result `r` then satisfies `"Basic " + r == header` and has length `len(header) - 6`. |
| BasicAuth.ExtractInvertsBasicHeader | 0x01-Basic_authentication/api/v1/auth/basic_auth.py:27-30 | Extraction undoes prefixing: any credentials text comes back unchanged. |
| BasicAuth.ExtractedHeaderIsBasicHeader | 0x01-Basic_authentication/api/v1/auth/basic_auth.py:30 | Every accepted header is `"Basic "` followed by what was extracted. |
| BasicAuth.LowerCaseSchemeRefused | 0x01-Basic_authentication/api/v1/auth/basic_auth.py:27-28 | The prefix check is case-sensitive: `basic x` gives `None`. |
| BasicAuth.SchemeWithoutSpaceRefused | 0x01-Basic_authentication/api/v1/auth/basic_auth.py:27-28 | The trailing space is required: `Basic` gives `None`. |
| BasicAuth.BarePrefixYieldsEmpty | 0x01-Basic_authentication/api/v1/auth/basic_auth.py:27-30 | `Basic ` gives the empty string, not `None`. |
| BasicAuth.ExtraSpaceIsKept | 0x01-Basic_authentication/api/v1/auth/basic_auth.py:30 | No trimming: `Basic  x` gives ` x`. |
| UserStore.NewDB | 0x03-user_authentication_service/db.py:19-24 | A new store holds no user, because the tables are dropped and created again. |
| UserStore.NewDBFindsNothing | 0x03-user_authentication_service/db.py:19-24 | A freshly constructed store holds no user, so every lookup fails. |
| UserStore.NextRowId | 0x03-user_authentication_service/db.py:46-49 | The id given to a new row differs from every stored id, and it is 1 in an empty store. |
| UserStore.AddUser | 0x03-user_authentication_service/db.py:36-50 | One record is appended and returned. It has the given email, the hash exactly as passed (of any type), a fresh id and no session or reset token. Existing records are untouched, and email uniqueness is not checked. |
| UserStore.AddedUserIsFoundById | 0x03-user_authentication_service/db.py:46-50 | Looking up the id of a record just added finds that record. |
| UserStore.Locate | 0x03-user_authentication_service/db.py:52-74 | The lookup finds the first record satisfying every filter. An unknown attribute name raises InvalidRequestError, whatever the store holds. No matching record raises NoResultFound. |
| UserStore.FindUserBy | 0x03-user_authentication_service/db.py:66-74 | Returns the first stored record equal to every filter value. It raises NoResultFound when none matches and InvalidRequestError on an unknown attribute, and never raises ValueError. |
| UserStore.Assign | 0x03-user_authentication_service/db.py:90-94 | Keywords are assigned in order. On success, unnamed attributes keep their value and each named one takes its last value. The first unknown name raises ValueError, and the assignments before it stay in place. |
| UserStore.UpdateUser | 0x03-user_authentication_service/db.py:76-96 | A missing id raises NoResultFound and changes nothing. Otherwise only the first record with that id changes, and only in the named attributes. An unknown name raises ValueError with no rollback of earlier keywords. |
| UserStore.UnknownKeywordKeepsEarlierAssignment | 0x03-user_authentication_service/db.py:90-93 | `update_user(1, session_id=t, color=7)` raises ValueError, and `session_id` is already `t`. |
| AuthService.EmailLookup | 0x03-user_authentication_service/auth.py:39 | The email lookup returns the first record stored with that email, and raises NoResultFound when there is none. |
| AuthService.HashPassword | 0x03-user_authentication_service/auth.py:17-23 | Under the verify law, the password checks against the hash made from it. |
| AuthService.RegisterUser | 0x03-user_authentication_service/auth.py:25-47 | Registration succeeds exactly when no stored record has the email. It then appends one record with that email and the hash of the password, and returns it. Otherwise it raises ValueError and leaves the store unchanged. |
| AuthService.ValidLogin | 0x03-user_authentication_service/auth.py:49-61 | True exactly when the first record with the email holds a byte-string hash that the password checks against. An unknown email gives false, and it never raises. |
| AuthService.RegisteredUserCanLogIn | 0x03-user_authentication_service/auth.py:25-61 | Under the verify law, `valid_login(e, p)` is true right after a successful `register_user(e, p)`. |
| AuthService.TextHashNeverLogsIn | 0x03-user_authentication_service/auth.py:53-59 | A record whose hash was stored as text, as `add_user`'s `str` annotation allows, never logs in. `checkpw` raises on it and `valid_login` returns false. |
| AuthService.SecondRegistrationRefused | 0x03-user_authentication_service/auth.py:38-40 | Registering the same email again raises ValueError and changes nothing. The store then holds exactly one record with that email. |
| AuthService.FirstRegistrationGetsIdOne | 0x03-user_authentication_service/auth.py:41-45 | In a fresh store, the first registration succeeds and its record gets id 1. |

## Left out

- Rendering a log record (`logging.Formatter.format`: name, level, timestamp, exception text). `Format` takes the already-rendered line.
- `get_logger`, `get_db` and `main` in filtered_logger.py. They do stream I/O, read environment variables and use MySQL.
- Regular expressions in general. The model assumes that field names and the separator contain no metacharacters (`LiteralPattern`) and that the separator is one character. Empty names and an empty field list are modelled: an empty list joins to `()`.
- Redaction idempotence is not claimed. It fails, for example, when the placeholder contains the separator.
- The HTTP layers (`app.py` in both services), the reflective loading of the auth class, and the base `Auth` stubs. They are glue with no logic of their own.
- bcrypt (`_hash_password`, `encrypt_password.py`). Hashing and checking are parameters, and the salt, drawn at random, is a parameter too. The source stores `hashpw(p, salt)`. Whether that differs from the plaintext is bcrypt's property, not stated here.
- SQLAlchemy and SQLite mechanics: sessions, commits, autoflush, and commit-time constraint failures. Commits never fail in the model. Storage order is taken to be insertion order. Ids follow SQLite's integer-primary-key rule: one more than the largest id, or 1 when there is none.
- `user.py` is not part of this model. The User attribute set is assumed to be `id`, `email`, `hashed_password`, `session_id`, `reset_token`. `hasattr` is also true for other Python attributes of the class (methods, `__tablename__`); the model treats those names as unknown.
- UserStore.AddUser: the email argument is always text. Python would store any object there, but every caller passes the `str` its annotation names. The hash argument is modelled with any type.
- Attribute values are compared as values. SQL type coercion in filters is not modelled.
- Exception messages are not modelled. For example, the ValueError of `update_user` carries no message because the message on the next line is a dead expression.
- Sessions and reset tokens (`create_session`, `destroy_session`, `get_reset_password_token`, `update_password`). `auth.py` has no such operations.

## Findings

| source | as written | input that shows it | evidently intended | confidence | as-written member | corrected member |
|---|---|---|---|---|---|---|
| 0x00-personal_data/filtered_logger.py:56-57 | `"ssn"` and `"password"` have no comma between them, so the tuple holds `"ssnpassword"` and has 8 entries | the rendered line `password=secret;` with the default fields is logged unredacted | nine fields, `ssn` and `password` separately, so the password value is redacted | high; not executed | Redaction.DefaultFieldsKeepPassword | Redaction.IntendedFieldsRedactPassword |
