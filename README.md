# Cookie auth-token codec of meet-book

This project models the authentication token of the meet-book backend
(`backend/security.py`) and proves what it does and does not guarantee.

- `create_auth_token` joins a user's username and password with the literal
  separator `_-_`. The token is plain text: it carries no signature, issue time
  or expiry.
- `get_user_from_token` splits the token once, at the first `_-_`. A token
  without the separator is rejected with 401 "Wrong credentials". Otherwise the
  text before the separator is looked up among the stored users. A missing user
  gives 404 "Not found". A found user is meant to give a `UserOut` carrying the
  stored node's username; as written, that construction fails validation (see
  "## Findings"). The text after the separator, the password, is never read.
- `get_logged_user` hands the request's token cookie to `get_user_from_token`
  and returns its answer unchanged.

The store of `User` nodes is a parameter: a map from username to node. The
database's uniqueness constraint on usernames (`backend/database.py:11-14`) is
what makes a map the right shape. The predicate `KeyedByUsername` says each node
is filed under its own username. The graph query at `security.py:24` becomes a
map membership test.

Python's `str.split(sep, 1)` is modelled in its own module, `StrSplit`, by a
left-to-right search for the first occurrence of the separator.

The round trip needs a stronger condition than "the username does not contain
`_-_`". A username ending in `_-` also breaks it. For example, `a_-` with password
`p` gives the token `a_-_-_p`. Its first separator starts at index 1, so the
token is read back as user `a`. `Unambiguous` states the exact condition: no
separator starts inside `username + "_-_"` before the appended one.
`UnambiguousIff` proves this is the same as "no `_-_` inside, and no trailing
`_-`". `RecoveredUsername` proves that the username comes back whole exactly
when this holds, and that otherwise a strict prefix comes back.

`backend/config.py:15` and `backend/config.py:17` declare
`auth_token_duration_seconds` and `secret_key`, but `security.py` uses neither:
the token has no signature and no expiry, and the model has none either.

## Model

| member | source | states |
|---|---|---|
| `StrSplit.FindFrom` | backend/security.py:18 | the index returned is an occurrence of the separator at or after the start, and no occurrence lies between the start and it; None means no occurrence at or after the start |
| `StrSplit.SplitOnce` | backend/security.py:18-19 | one part, the whole token, exactly when the separator does not occur. Otherwise two parts, joined by the separator to give back the token, with the separator's first occurrence right after the first part |
| `StrSplit.SplitAtFirstOccurrence` | backend/security.py:18 | any split of a string around an occurrence of the separator that no earlier occurrence precedes is the split `split(sep, 1)` returns |
| `StrSplit.SplitHeadDependsOnPrefix` | backend/security.py:18-22 | the first part of the split depends only on the text up to and including an occurrence of the separator; whatever follows cannot move it |
| `Security.CreateAuthToken` | backend/security.py:8-9 | the token is the username, then the separator starting at index len(username), then the password, and its length is exactly the sum of the three |
| `Security.GetUserFromToken` | backend/security.py:17-31 | a token is rejected with 401 "Wrong credentials" if and only if it contains no separator, whatever the store holds; every other failure is 404 "Not found" |
| `Security.GetLoggedUser` | backend/security.py:12-14 | returns exactly what `get_user_from_token` returns for the same token, errors included |
| `Security.UnambiguousIff` | backend/security.py:8-22 | a username survives the encode/split round trip exactly when it holds no `_-_` and does not end with `_-` |
| `Security.TokenRoundTrip` | backend/security.py:8-22 | for an unambiguous username, splitting its token gives back the username and the whole password, including any separators the password contains |
| `Security.RecoveredUsername` | backend/security.py:8-22 | a token always splits in two; the part before the first separator equals the username if and only if the username is unambiguous; otherwise it is a strict prefix of the username |
| `Security.TrailingDashUsernameIsTruncated` | backend/security.py:8-22 | the username `a_-` contains no separator, yet its token `a_-_-_p` is read back as `a` |
| `Security.SeparatorAloneNamesEmptyUser` | backend/security.py:17-31 | the token `_-_` passes the format check and is looked up as the empty username |
| `Security.LoginRoundTrip` | backend/security.py:8-31 | with usernames as keys, the token minted for an unambiguous username resolves to that user when stored and to 404 "Not found" otherwise |
| `Security.PasswordNeverExamined` | backend/security.py:8-31 | two tokens minted for the same username with different passwords resolve to the same outcome, for every username, ambiguous ones included |
| `Security.StoredPasswordNeverExamined` | backend/security.py:22-31 | two stores with the same usernames that differ only in stored passwords resolve every token alike |
| `Security.GetUserFromTokenAsWritten` | backend/security.py:17-31 | as written, no token resolves to a user: 401 "Wrong credentials" exactly when the token has no separator, and every successful lookup ends in a `UserOut` validation failure |
| `Models.ConstructUserOut` | backend/models.py:10-21 | a `UserOut` is built exactly when every field without a default (`username`, `url`) is given; otherwise the failure names a required field that is missing |
| `Security.AsWrittenFailsWhereIntendedSucceeds` | backend/security.py:17-31 | the code as written fails on the missing `url` exactly where the intended lookup authenticates a user, and rejects every other token with the same HTTP error |
| `Security.StoredUserFailsValidationAsWritten` | backend/security.py:17-31 | the stored user `alice` presenting the token `alice_-_pw` is authenticated by the intended lookup and fails validation as written |
| `Security.AuthenticatesExactly` | backend/security.py:17-31 | with usernames as keys, a token resolves to user `name` if and only if `name` is stored and the token starts with `name` followed by its first separator |

## Findings

| source | as written | input that shows it | evidently intended | confidence | as-written member | corrected member |
|---|---|---|---|---|---|---|
| backend/security.py:29-31 | builds `UserOut(username=...)` without `url`, which `backend/models.py:21` declares with no default, so schema validation raises on every user found | user `alice` stored, token `alice_-_pw` | answer with a `UserOut` carrying the stored username | high that pydantic rejects a missing required field; not executed | `Security.GetUserFromTokenAsWritten`, `Security.StoredUserFailsValidationAsWritten` | `Security.GetUserFromToken`, with `Security.LoginRoundTrip` and `Security.AuthenticatesExactly` |

`GetLoggedUser` and the remaining lemmas use the corrected `GetUserFromToken`.

## Left out

- Cookie extraction in `get_logged_user` (`security.py:12`) is done by the web framework. The model takes the token as a plain string. The cookie name `X-Token` from `backend/config.py` is therefore not modelled.
- The Neo4j session and query (`security.py:23-24`) are database I/O. The store is passed in as a map, and the query is a membership test on it.
- `UserOut` is reduced to the username, the only field `security.py:29-31` sets. Its `posts`, `comments` and `url` values are not modelled; schema validation is modelled only as the check that every field without a default is given (`Models.ConstructUserOut`).
- `HTTPException` is modelled as a returned `Failure` carrying the status code and detail text. Raising and the framework's error response are not modelled.
- Everything outside `backend/security.py` is out of scope. This covers the stub handlers of `backend/api.py`, the frontend, configuration loading, the database driver setup, and the time and uuid helpers. None of them takes part in the codec.
