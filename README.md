# JWKS test server, modelled in Dafny

`main.py` is a small JWT issuer for testing token validators. At startup it
generates one RSA key and stores it twice in the SQLite table `keys`: once
expiring an hour from now and once already expired an hour ago. It then serves
two routes:

- `POST /auth` signs a JWT with the first unexpired key. With `?expired=<value>`
  it signs with the first expired key instead, and the token's `exp` is an hour
  in the past. If no key matches it answers 404 `Key not found.`.
- `GET /.well-known/jwks.json` publishes every unexpired key as a JWK set.

Every other verb or path gets 405.

The model has five modules:

- `Wrappers` (`wrappers.dfy`): `Option`.
- `Base64Url` (`base64url.dfy`): `int_to_base64`, the Base64urlUInt encoding of
  section 2 of RFC 7518, which the JWK `n` and `e` members use (section 6.3.1
  of RFC 7518). The steps are: hex digits as `format(value, 'x')` writes them,
  left-padded to an even count, read as big-endian bytes, encoded with the
  alphabet of section 5 of RFC 4648, trailing `=` stripped. The module also
  has a decoder, so the round trip can be stated.
- `Decimal` (`decimal.dfy`): `str(kid)`, and reading it back.
- `KeyStore` (`key_store.dfy`): the `keys` table as a class. It holds the
  rows (`kid`, PEM, `exp`) and the AUTOINCREMENT counter `nextKid`. `Insert` is
  `save_key_to_db`, `Seed` is the startup seeding, and `StartServer` creates
  the table on a new database and seeds it. The queries are functions over the
  rows: `SelectOne` and `GetPrivateKey` for `get_private_key`, `ValidRows` for
  the JWKS query.
- `Server` (`server.dfy`): the request decisions of `MyServer` as a pure
  function `Respond` from a request, the rows and the time `now` to a status
  and body. The method `Handle` runs the same decision against a `KeyTable`
  and builds the key list with the loop of `do_GET` (`BuildJwks`).

Modelling choices:

- **Row order.** SQLite's `fetchone()`/`fetchall()` without `ORDER BY` promise
  no row order. The model takes table order, which is insertion order. The
  `Valid()` invariant of `KeyTable` keeps that order ascending by `kid`.
- **The `expired` flag.** The flag is `'expired' in parse_qs(query)`, and
  `parse_qs` drops blank values by default (`keep_blank_values` is false). So
  only an `&`-separated field of the form `expired=<non-empty>` sets it.
  `POST /auth?expired` and `POST /auth?expired=` therefore sign with a
  **valid** key and an `exp` an hour ahead. `BareExpiredIsIgnored` and
  `FreshStartValidToken` state this.
- **Path matching differs between the two handlers.** `do_POST` compares the
  path that `urlparse` extracts, so `/auth?x` is routed. `do_GET` compares the
  raw `self.path`, so `/.well-known/jwks.json?x=1` gets 405. A `Request`
  therefore carries the raw target and the parsed path and query.
- **External inputs.** `now` is a parameter. The source reads the clock
  separately for the selection and for the token's `exp`; the model uses one
  instant for both. RSA private keys are opaque PEM bytes (`Pem`), and the
  public numbers `(n, e)` come from a function parameter `derive`, which
  stands for `load_pem_private_key(...).public_key().public_numbers()`.
- **The token.** A token is its `alg` and `kid` header members and its `user`
  and `exp` claims. Signing and compact serialisation are not modelled.
- **Restarts.** Startup seeding runs on every start, also against an
  existing database file. `Seed` works on any `Valid()` table: each start
  appends two more rows, and a row from an earlier start that is still
  unexpired comes first in table order and is the one `POST /auth` selects.
  `SeededSelections` states both.
- **Decoder.** The decoder, used only to state round trips, is strict: it
  rejects a final group whose unused low bits are not zero, as section 3.5 of
  RFC 4648 allows. With it the encoder and decoder are inverse both ways.
- **Key set order.** The JWKS query (main.py:113) has no `ORDER BY`. The
  model keeps table order, and `JwksAscending` shows that this is ascending
  `kid` for every table `Valid()` admits.

## Model

| member | source | states |
|---|---|---|
| `Base64Url.HexDigits` | main.py:32 | `format(v, 'x')` is non-empty lowercase hex, and begins with '0' exactly when `v` is 0 (then it is "0") |
| `Base64Url.HexDigitsValue` | main.py:32 | reading the hex numeral back gives `v` |
| `Base64Url.PadHex` | main.py:33-34 | the one-'0' left pad makes the digit count even, giving `ceil(digits/2)` pairs, and keeps the string hex |
| `Base64Url.PadHexValue` | main.py:33-34 | the pad keeps the value of the numeral |
| `Base64Url.FromHex` | main.py:35 | `bytes.fromhex` turns each pair of hex digits into one byte, so it gives half as many bytes as digits; `FromHexValue` gives their value |
| `Base64Url.FromHexValue` | main.py:35 | `bytes.fromhex` on hex digit pairs gives the bytes whose big-endian value is the hex value |
| `Base64Url.IntToBytes` | main.py:32-35 | `format`, pad, `bytes.fromhex` composed; `IntToBytesCanonical` and `IntToBytesShortest` state that this is the minimal big-endian encoding of `v` |
| `Base64Url.IntToBytesCanonical` | main.py:32-35 | the bytes encode `v` big-endian, there are `ceil(hexDigits/2)` of them, none is a leading zero byte when `v > 0`, and 0 is the single byte 0x00 |
| `Base64Url.IntToBytesShortest` | main.py:32-35 | no non-empty byte string of value `v` is shorter than the encoded one |
| `Base64Url.EncodePadded` | main.py:36 | `urlsafe_b64encode` yields 4 characters per started group of 3 bytes |
| `Base64Url.StripPadding` | main.py:36 | `rstrip(b'=')` is a prefix of its input, ends in no '=', and removes only '=' characters |
| `Base64Url.EncodeUnpadded` | main.py:36 | unpadded base64url uses only `A-Z a-z 0-9 - _` and has `ceil(8*bytes/6)` characters |
| `Base64Url.StripPaddedIsUnpadded` | main.py:36 | stripping the '=' of the padded encoding gives the unpadded encoding |
| `Base64Url.DecodeEncode` | main.py:36 | decoding undoes the unpadded encoding, for every byte string |
| `Base64Url.IntToBase64` | main.py:30-37 | `int_to_base64` as the composition of the steps above; `IntToBase64Alphabet`, `IntToBase64RoundTrip`, `IntToBase64Length`, `IntToBase64Injective` state its properties |
| `Base64Url.EncodeDecode` | main.py:36 | a string the decoder accepts is exactly the unpadded encoding of the bytes it decodes to (so the encoder's final character, with its zero low bits, is fixed) |
| `Base64Url.IntToBase64Alphabet` | main.py:36 | the output of `int_to_base64` uses only the base64url alphabet and contains no '=' |
| `Base64Url.IntToBase64RoundTrip` | main.py:30-37 | decoding the output gives the encoded bytes, and reading them big-endian gives `v` |
| `Base64Url.IntToBase64Length` | main.py:33-36 | the byte count is `ceil(hexDigits/2)` and the output length is `ceil(8*byteCount/6)` |
| `Base64Url.IntToBase64Injective` | main.py:30-37 | distinct integers have distinct encodings |
| `Base64Url.ZeroEncoding` | main.py:32-36 | 0 encodes as the single byte 0x00, "AA" |
| `Base64Url.ExponentEncoding` | main.py:30-37 | the public exponent 65537 encodes as the bytes 01 00 01, "AQAB" |
| `Base64Url.Sextets` | main.py:36 | a string has sextets exactly when all its characters are in the alphabet, one per character and mapping back to it |
| `Decimal.DecimalString` | main.py:86 | `str(kid)` is non-empty, all digits, and has a leading '0' only for 0 |
| `Decimal.DecimalRoundTrip` | main.py:126 | reading `str(kid)` back gives `kid` |
| `Decimal.DecimalStringInjective` | main.py:126 | distinct key ids give distinct `kid` strings |
| `KeyStore.Matches` | main.py:61-63 | the `WHERE` clause: `exp < now` for the expired query, `exp > now` otherwise; `BoundaryRowNeverSelected` states that no row with `exp == now` satisfies either |
| `KeyStore.AscendingKidsDistinct` | main.py:22 | ids in ascending order, as AUTOINCREMENT hands them out and `Valid()` keeps them, are pairwise distinct |
| `KeyStore.SelectOne` | main.py:60-65 | the result is `None` exactly when no row satisfies `exp < now` (expired) or `exp > now` (otherwise); otherwise it is a matching row with no matching row before it |
| `KeyStore.GetPrivateKey` | main.py:57-73 | `(None, None, None)` exactly when no row matches; otherwise the `kid` and PEM of a matching row |
| `KeyStore.BoundaryRowNeverSelected` | main.py:59-63 | the expired query returns only rows with `exp < now`, the other only rows with `exp > now`, so a row with `exp == now` is returned by neither |
| `KeyStore.ValidRows` | main.py:113-115 | the query returns no more rows than the table holds, and every returned row has `exp > now` |
| `KeyStore.ValidRowsMembers` | main.py:113-115 | a row is returned exactly when it is in the table and has `exp > now` |
| `KeyStore.ValidRowsAscending` | main.py:113-115 | when the table is ascending by `kid`, so are the fetched rows |
| `KeyStore.KeyTable.constructor` | main.py:20-27 | a new table is empty, with the AUTOINCREMENT counter at 1 |
| `KeyStore.KeyTable.Insert` | main.py:39-47 | appends exactly one row with the given key and `exp` and the next `kid`, which exceeds every existing `kid`; earlier rows are unchanged and the invariant is kept |
| `KeyStore.KeyTable.Seed` | main.py:50-55 | appends the key with `exp = now+3600` and then with `exp = now-3600`, under consecutive new ids |
| `KeyStore.StartServer` | main.py:15-55 | on a new database the table holds exactly rows 1 (`now+3600`) and 2 (`now-3600`) |
| `KeyStore.SeededSelections` | main.py:50-63 | after seeding at `now`, both selections succeed, whatever rows came before; a row that already matched before seeding is still the one selected; on a table without earlier matches they return the seeded rows |
| `Server.Split` | main.py:79 | `str.split` returns at least one piece, and no piece contains the separator |
| `Server.JoinSplit` | main.py:79 | joining the pieces of a split gives the query back |
| `Server.SplitJoin` | main.py:79 | splitting a join of separator-free pieces gives the pieces back |
| `Server.ExpiredParam` | main.py:79-83 | `'expired' in parse_qs(query)`: some `&`-separated field is `expired=` followed by a non-empty value; `BareExpiredIsIgnored` and `ExpiredWithValueIsSeen` state both sides |
| `Server.BareExpiredIsIgnored` | main.py:79-83 | `parse_qs` drops `expired` and `expired=`, so neither sets the flag |
| `Server.ExpiredWithValueIsSeen` | main.py:79-83 | `expired=<non-empty>` sets the flag, whether alone or after other fields |
| `Server.IssueToken` | main.py:86-92 | header `alg` RS256 and `kid = str(kid)` (digits without a leading zero, "0" for id 0, reading back as the id), claims `user = "username"` and `exp = now+3600`, or `now-3600` for the expired request |
| `Server.Authenticate` | main.py:81-101 | `do_POST` on `/auth`: a token for the selected key, or 404 "Key not found."; `PostAuthOutcome` and `TokenNamesMatchingRow` state the outcome |
| `Server.JwkOf` | main.py:116-129 | the record of one row: `alg`, `kty`, `use`, `kid = str(kid)` and the encoded `n` and `e`; `JwksRecords` states that `n` and `e` decode to the key's public numbers |
| `Server.Jwks` | main.py:113-129 | the record list of the unexpired rows in table order; `JwksListsExactlyUnexpired`, `JwksAscending` and `IssuedTokenIsPublished` state its properties |
| `Server.BuildJwks` | main.py:114-129 | the loop builds exactly one record per fetched row, in order |
| `Server.Respond` | main.py:77-151 | the routing of `do_GET`/`do_POST` and the 405 default; `StatusCodes` and `PostAuthOutcome` state its outcomes |
| `Server.Handle` | main.py:77-151 | handling a request against the table gives the response `Respond` prescribes |
| `Server.PostAuthOutcome` | main.py:81-101 | `POST /auth` with a matching key gives 200 and a token for the first matching row; without one it gives 404 "Key not found." |
| `Server.StatusCodes` | main.py:77-151 | every status is 200, 404 or 405; 405 (empty body) exactly off the two routes; 404 exactly for `POST /auth` with no matching row |
| `Server.TokenNamesMatchingRow` | main.py:83-90 | a token's `kid` names a row with `exp < now` and its `exp` is `now-3600` when the flag is set; otherwise the row has `exp > now` and the token `exp` is `now+3600` |
| `Server.JwksRecords` | main.py:122-128 | every record has `alg` RS256, `kty` RSA, `use` sig, and the `kid`, `n` and `e` of an unexpired row |
| `Server.JwksListsExactlyUnexpired` | main.py:112-129 | with pairwise distinct ids (which ascending ids are, see `AscendingKidsDistinct`), a row has a record in the key set exactly when `exp > now` |
| `Server.JwksAscending` | main.py:113-129 | records come in ascending numeric `kid` order |
| `Server.IssuedTokenIsPublished` | main.py:83-129 | the record published at the same instant for a valid token's key has the token's `kid` and that key's public numbers |
| `Server.FreshStartValidToken` | main.py:77-92 | after startup both `POST /auth` and `POST /auth?expired` sign with key 1 and `exp = now+3600` |
| `Server.FreshStartExpiredToken` | main.py:77-92 | after startup `POST /auth?expired=true` signs with key 2 and `exp = now-3600` |
| `Server.FreshStartKeySet` | main.py:106-135 | after startup the key set lists key 1 alone, and the JWKS path with a query string gets 405 |

## Left out

- Socket I/O, `send_response`/`send_header`/`wfile.write` and the serve loop
  (main.py:153-163): only the decided status and body are modelled.
- The `Content-type: application/json` header of the JWKS response
  (main.py:109) and JSON serialisation with `json.dumps`: the body is the
  record list.
- HTTP verbs without a `do_` handler: `http.server` answers them with 501,
  which is library behaviour outside `main.py`.
- The SQLite connection, cursor and commits (main.py:16-27): the table is the
  in-memory row sequence. SQLite's 64-bit limit on `kid`, where AUTOINCREMENT
  fails with SQLITE_FULL, is not modelled. Nor is the 64-bit range of `exp`.
- RSA key generation, PEM serialisation and loading, and public-key
  derivation (main.py:41-45, 50, 68-71, 117-128): key material is opaque, and
  `derive` stands for the derivation. A malformed stored PEM cannot arise,
  because only this server writes the table.
- JWT signing (`jwt.encode` with RS256, main.py:92) and the compact
  serialisation: tokens carry their header and claims only. PyJWT's default
  `typ` header is not modelled.
- The wall clock (main.py:51, 59, 89, 112): `now` is one integer parameter.
  The sub-second part that PyJWT drops when it converts a `datetime` `exp`
  does not arise.
- `urlparse` is abstracted: a request carries its parsed `path` and `query`
  next to the raw target.
- `Server.ExpiredParam` does not model percent-decoding or `+`-to-space in
  field names (`exp%69red=1` also sets the flag in the source), nor the `;`
  separator of Python versions before 3.9.2.
- `Base64Url.FromHex` requires an even-length lowercase hex string. That is
  the only input `int_to_base64` gives it, so the `ValueError` of
  `bytes.fromhex`, and its acceptance of upper case and whitespace, are not
  modelled.
- The integer argument of `int_to_base64` is a `nat`. The source is only
  called with RSA `n` and `e`, and a negative number would fail in
  `bytes.fromhex`.
