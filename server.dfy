/**
 * The decisions of the request handler `MyServer` (main.py:76-151): which
 * status and body each request gets, given the rows of the key table and
 * the current time. Signing, JSON serialisation and socket I/O are outside
 * the model; a token is its header and claims, a key set its records.
 */
module Server {
  import opened Wrappers
  import opened Base64Url
  import opened Decimal
  import opened KeyStore

  /** The verbs `MyServer` defines a `do_` handler for. */
  datatype Method = GET | POST | PUT | PATCH | DELETE | HEAD

  /**
   * A request: its verb, the raw request target (`self.path`) and the
   * path and query components that `urlparse` splits it into.
   */
  datatype Request = Request(verb: Method, target: string, path: string, query: string)

  /** The RSA public numbers `(n, e)` the cryptography library derives from a PEM. */
  datatype PublicNumbers = PublicNumbers(n: nat, e: nat)

  /** A JWT before signing: the `alg` and `kid` header members and the two claims. */
  datatype Token = Token(alg: string, kid: string, user: string, exp: int)

  /** One entry of the `keys` array of the JWKS document (main.py:122-129). */
  datatype Jwk = Jwk(alg: string, kty: string, use: string, kid: string, n: string, e: string)

  datatype Body = Empty | Text(text: string) | Jwt(token: Token) | KeySet(keys: seq<Jwk>)

  datatype Response = Response(status: nat, body: Body)

  const AuthPath: string := "/auth"
  const JwksPath: string := "/.well-known/jwks.json"
  /** `timedelta(hours=1)` in seconds. */
  const OneHour: int := 3600
  const NotFoundText: string := "Key not found."

  // ---------------------------------------------------------------------------
  // The `expired` query parameter (main.py:79, main.py:83, main.py:89)
  // ---------------------------------------------------------------------------

  /** `s.split(sep)`: the pieces between occurrences of `sep`. */
  function Split(s: string, sep: char): (parts: seq<string>)
    ensures |parts| >= 1
    ensures forall i :: 0 <= i < |parts| ==> sep !in parts[i]
  {
    if s == [] then [[]]
    else
      var rest := Split(s[1..], sep);
      if s[0] == sep then [[]] + rest else [[s[0]] + rest[0]] + rest[1..]
  }

  /** `sep.join(parts)`. */
  function Join(parts: seq<string>, sep: char): string
    requires |parts| >= 1
  {
    if |parts| == 1 then parts[0] else parts[0] + [sep] + Join(parts[1..], sep)
  }

  lemma {:induction false} JoinSplit(s: string, sep: char)
    ensures Join(Split(s, sep), sep) == s
  {
    if s != [] {
      var rest := Split(s[1..], sep);
      JoinSplit(s[1..], sep);
      if s[0] == sep {
        assert ([[]] + rest)[1..] == rest;
      } else if |rest| > 1 {
        var parts := [[s[0]] + rest[0]] + rest[1..];
        assert parts[1..] == rest[1..];
      }
    }
  }

  lemma {:induction false} SplitAfterPiece(a: string, sep: char, t: string)
    requires sep !in a
    ensures Split(a + [sep] + t, sep) == [a] + Split(t, sep)
  {
    if a == [] {
      assert a + [sep] + t == [sep] + t;
      assert ([sep] + t)[1..] == t;
    } else {
      var s := a + [sep] + t;
      assert s[0] == a[0];
      assert s[1..] == a[1..] + [sep] + t;
      SplitAfterPiece(a[1..], sep, t);
      assert [a[0]] + a[1..] == a;
    }
  }

  lemma {:induction false} SplitPiece(a: string, sep: char)
    requires sep !in a
    ensures Split(a, sep) == [a]
  {
    if a != [] {
      SplitPiece(a[1..], sep);
      assert [a[0]] + a[1..] == a;
    }
  }

  /** Splitting a join of pieces without `sep` gives the pieces back. */
  lemma {:induction false} SplitJoin(parts: seq<string>, sep: char)
    requires |parts| >= 1
    requires forall i :: 0 <= i < |parts| ==> sep !in parts[i]
    ensures Split(Join(parts, sep), sep) == parts
  {
    if |parts| == 1 {
      SplitPiece(parts[0], sep);
    } else {
      SplitJoin(parts[1..], sep);
      SplitAfterPiece(parts[0], sep, Join(parts[1..], sep));
      assert [parts[0]] + parts[1..] == parts;
    }
  }

  /**
   * One `&`-separated field of the query contributes `expired` to the
   * result of `parse_qs` exactly when it is `expired=` followed by a
   * non-empty value: with `keep_blank_values` false, a field without `=`
   * and a field with an empty value are both dropped.
   */
  predicate FieldSetsExpired(field: string)
  {
    |field| > 8 && field[..8] == "expired="
  }

  /** `'expired' in parse_qs(query)`, for a field name written without escapes. */
  predicate ExpiredParam(query: string)
  {
    exists f :: f in Split(query, '&') && FieldSetsExpired(f)
  }

  /** `?expired` alone is dropped by `parse_qs`, and so asks for an unexpired key. */
  lemma BareExpiredIsIgnored()
    ensures !ExpiredParam("expired")
    ensures !ExpiredParam("expired=")
    ensures !ExpiredParam("")
  {
    SplitPiece("expired", '&');
    SplitPiece("expired=", '&');
    SplitPiece("", '&');
  }

  lemma ExpiredFieldAlone(f: string)
    requires FieldSetsExpired(f) && '&' !in f
    ensures ExpiredParam(f)
  {
    SplitPiece(f, '&');
    assert f in Split(f, '&');
  }

  lemma ExpiredFieldLast(before: string, f: string)
    requires FieldSetsExpired(f) && '&' !in f
    ensures ExpiredParam(before + ['&'] + f)
  {
    var parts := Split(before, '&') + [f];
    JoinAppend(Split(before, '&'), f, '&');
    JoinSplit(before, '&');
    SplitJoin(parts, '&');
    assert f == parts[|parts| - 1];
    assert f in Split(before + ['&'] + f, '&');
  }

  /** A non-empty value sets the flag, alone or after other fields. */
  lemma ExpiredWithValueIsSeen(value: string, before: string)
    requires |value| >= 1 && '&' !in value
    ensures ExpiredParam("expired=" + value)
    ensures ExpiredParam(before + "&expired=" + value)
  {
    var f := "expired=" + value;
    assert f[..8] == "expired=";
    assert '&' !in f by {
      forall i | 0 <= i < |f| ensures f[i] != '&' {
        if i >= 8 { assert f[i] == value[i - 8]; }
      }
    }
    ExpiredFieldAlone(f);
    ExpiredFieldLast(before, f);
    assert before + "&expired=" + value == before + ['&'] + f;
  }

  lemma {:induction false} JoinAppend(parts: seq<string>, last: string, sep: char)
    requires |parts| >= 1
    ensures Join(parts + [last], sep) == Join(parts, sep) + [sep] + last
  {
    if |parts| == 1 {
      assert (parts + [last])[1..] == [last];
    } else {
      assert (parts + [last])[1..] == parts[1..] + [last];
      JoinAppend(parts[1..], last, sep);
    }
  }

  // ---------------------------------------------------------------------------
  // Token issuance (main.py:81-101)
  // ---------------------------------------------------------------------------

  /**
   * main.py:86-92: header `kid` is the row's id in decimal, the subject is
   * the fixed "username", and `exp` is an hour after `now`, or an hour
   * before it when the expired key was asked for.
   */
  function IssueToken(sel: Selected, expired: bool, now: int): (t: Token)
    ensures t.alg == "RS256" && t.user == "username"
    ensures AllDigits(t.kid) && DecimalValue(t.kid) == sel.kid
    ensures |t.kid| >= 1 && (t.kid[0] == '0' <==> sel.kid == 0)
    ensures sel.kid == 0 ==> t.kid == "0"
    ensures t.exp == if expired then now - OneHour else now + OneHour
  {
    DecimalRoundTrip(sel.kid);
    Token("RS256", DecimalString(sel.kid), "username", if expired then now - OneHour else now + OneHour)
  }

  /** `do_POST` on path `/auth` (main.py:81-101). */
  function Authenticate(rows: seq<Row>, expired: bool, now: int): Response
  {
    match GetPrivateKey(rows, expired, now)
    case Some(sel) => Response(200, Jwt(IssueToken(sel, expired, now)))
    case None => Response(404, Text(NotFoundText))
  }

  // ---------------------------------------------------------------------------
  // JWKS publication (main.py:106-132)
  // ---------------------------------------------------------------------------

  // The proofs below that compare whole records start with `hide IntToBase64`:
  // they treat the encoded `n` and `e` as values, and unfolding the encoder
  // there only makes the solver's work larger.

  /** main.py:116-129: the public record of one unexpired row. */
  function JwkOf(row: Row, derive: Pem -> PublicNumbers): (k: Jwk)
  {
    var pub := derive(row.key);
    Jwk("RS256", "RSA", "sig", DecimalString(row.kid), IntToBase64(pub.n), IntToBase64(pub.e))
  }

  /** The `keys` array: one record per unexpired row, in table order. */
  function Jwks(rows: seq<Row>, now: int, derive: Pem -> PublicNumbers): seq<Jwk>
  {
    var valid := ValidRows(rows, now);
    seq(|valid|, j requires 0 <= j < |valid| => JwkOf(valid[j], derive))
  }

  /**
   * The `for` loop of main.py:114-129 over the fetched rows, appending one
   * record per row.
   */
  method BuildJwks(rows: seq<Row>, now: int, derive: Pem -> PublicNumbers) returns (keys: seq<Jwk>)
    ensures keys == Jwks(rows, now, derive)
  {
    hide IntToBase64;
    var fetched := ValidRows(rows, now);
    keys := [];
    var i := 0;
    while i < |fetched|
      invariant 0 <= i <= |fetched|
      invariant |keys| == i
      invariant forall j :: 0 <= j < i ==> keys[j] == JwkOf(fetched[j], derive)
    {
      keys := keys + [JwkOf(fetched[i], derive)];
      i := i + 1;
    }
  }

  // ---------------------------------------------------------------------------
  // Routing (main.py:77-151)
  // ---------------------------------------------------------------------------

  /**
   * The response to a request. `do_POST` compares the parsed path, so a
   * query string is allowed there; `do_GET` compares the raw target, so
   * any query string after the JWKS path gives 405.
   */
  function Respond(req: Request, rows: seq<Row>, now: int, derive: Pem -> PublicNumbers): Response
  {
    match req.verb
    case POST =>
      if req.path == AuthPath then Authenticate(rows, ExpiredParam(req.query), now)
      else Response(405, Empty)
    case GET =>
      if req.target == JwksPath then Response(200, KeySet(Jwks(rows, now, derive)))
      else Response(405, Empty)
    case _ => Response(405, Empty)
  }

  /** The request handler run against the live table, `do_GET` building its list by the loop. */
  method Handle(table: KeyTable, req: Request, now: int, derive: Pem -> PublicNumbers)
    returns (resp: Response)
    ensures resp == Respond(req, table.rows, now, derive)
  {
    if req.verb == GET && req.target == JwksPath {
      var keys := BuildJwks(table.rows, now, derive);
      resp := Response(200, KeySet(keys));
    } else if req.verb == POST && req.path == AuthPath {
      resp := Authenticate(table.rows, ExpiredParam(req.query), now);
    } else {
      resp := Response(405, Empty);
    }
  }

  // ---------------------------------------------------------------------------
  // Properties of the responses
  // ---------------------------------------------------------------------------

  /**
   * main.py:81-101: `POST /auth` answers 200 with a token for the first
   * matching key, or 404 "Key not found." when no key matches.
   */
  lemma PostAuthOutcome(req: Request, rows: seq<Row>, now: int, derive: Pem -> PublicNumbers)
    requires req.verb == POST && req.path == AuthPath
    ensures var resp := Respond(req, rows, now, derive);
            var expired := ExpiredParam(req.query);
            match SelectOne(rows, expired, now)
            case Some(row) =>
              && Matches(row, expired, now)
              && resp.status == 200
              && resp.body == Jwt(Token("RS256", DecimalString(row.kid), "username",
                                        if expired then now - OneHour else now + OneHour))
            case None =>
              resp == Response(404, Text("Key not found."))
  {
  }

  /** Every response is 200, 404 or 405, and 405 exactly off the two routes. */
  lemma StatusCodes(req: Request, rows: seq<Row>, now: int, derive: Pem -> PublicNumbers)
    ensures Respond(req, rows, now, derive).status in {200, 404, 405}
    ensures Respond(req, rows, now, derive).status == 405 <==>
              !(req.verb == POST && req.path == AuthPath) &&
              !(req.verb == GET && req.target == JwksPath)
    ensures Respond(req, rows, now, derive).status == 405 ==> Respond(req, rows, now, derive).body == Empty
    ensures Respond(req, rows, now, derive).status == 404 <==>
              req.verb == POST && req.path == AuthPath &&
              forall i :: 0 <= i < |rows| ==> !Matches(rows[i], ExpiredParam(req.query), now)
  {
  }

  /** A token's `kid` names a row that matched the request's intent at `now`. */
  lemma TokenNamesMatchingRow(req: Request, rows: seq<Row>, now: int, derive: Pem -> PublicNumbers)
    requires Respond(req, rows, now, derive).body.Jwt?
    ensures var t := Respond(req, rows, now, derive).body.token;
            exists i :: 0 <= i < |rows| && DecimalString(rows[i].kid) == t.kid &&
                        (if ExpiredParam(req.query) then rows[i].exp < now && t.exp == now - OneHour
                         else rows[i].exp > now && t.exp == now + OneHour)
  {
  }

  /** main.py:122-128: the fixed members of every record, and its `n` and `e`. */
  lemma JwksRecords(rows: seq<Row>, now: int, derive: Pem -> PublicNumbers)
    ensures var keys := Jwks(rows, now, derive);
            forall j :: 0 <= j < |keys| ==>
              && keys[j].alg == "RS256" && keys[j].kty == "RSA" && keys[j].use == "sig"
              && exists i :: 0 <= i < |rows| && rows[i].exp > now &&
                             keys[j].kid == DecimalString(rows[i].kid) &&
                             DecodeUInt(keys[j].n) == Some(derive(rows[i].key).n) &&
                             DecodeUInt(keys[j].e) == Some(derive(rows[i].key).e)
  {
    hide IntToBase64;
    var keys := Jwks(rows, now, derive);
    var valid := ValidRows(rows, now);
    ValidRowsMembers(rows, now);
    forall j | 0 <= j < |keys|
      ensures exists i :: 0 <= i < |rows| && rows[i].exp > now &&
                          keys[j].kid == DecimalString(rows[i].kid) &&
                          DecodeUInt(keys[j].n) == Some(derive(rows[i].key).n) &&
                          DecodeUInt(keys[j].e) == Some(derive(rows[i].key).e)
    {
      var row := valid[j];
      assert row in rows;
      var i :| 0 <= i < |rows| && rows[i] == row;
      IntToBase64RoundTrip(derive(row.key).n);
      IntToBase64RoundTrip(derive(row.key).e);
    }
  }

  /**
   * main.py:113-129: with distinct key ids (which `KeyTable.Valid()` keeps,
   * see `AscendingKidsDistinct`), a row has a record in the key set exactly
   * when it has not expired at `now`.
   */
  lemma JwksListsExactlyUnexpired(rows: seq<Row>, now: int, derive: Pem -> PublicNumbers, i: nat)
    requires KidsDistinct(rows) && i < |rows|
    ensures var keys := Jwks(rows, now, derive);
            (exists j :: 0 <= j < |keys| && keys[j].kid == DecimalString(rows[i].kid)) <==>
            rows[i].exp > now
  {
    hide IntToBase64;
    var keys := Jwks(rows, now, derive);
    var valid := ValidRows(rows, now);
    ValidRowsMembers(rows, now);
    if rows[i].exp > now {
      assert rows[i] in valid;
      var j :| 0 <= j < |valid| && valid[j] == rows[i];
      assert keys[j].kid == DecimalString(rows[i].kid);
    } else if exists j :: 0 <= j < |keys| && keys[j].kid == DecimalString(rows[i].kid) {
      var j :| 0 <= j < |keys| && keys[j].kid == DecimalString(rows[i].kid);
      assert valid[j] in rows;
      var k :| 0 <= k < |rows| && rows[k] == valid[j];
      DecimalStringInjective(rows[k].kid, rows[i].kid);
      assert false;
    }
  }

  /** The records come in ascending numeric `kid` order. */
  lemma JwksAscending(rows: seq<Row>, now: int, derive: Pem -> PublicNumbers)
    requires KidsAscending(rows)
    ensures var keys := Jwks(rows, now, derive);
            forall a, b :: 0 <= a < b < |keys| ==> DecimalValue(keys[a].kid) < DecimalValue(keys[b].kid)
  {
    hide IntToBase64;
    var keys := Jwks(rows, now, derive);
    var valid := ValidRows(rows, now);
    ValidRowsAscending(rows, now);
    forall a, b | 0 <= a < b < |keys| ensures DecimalValue(keys[a].kid) < DecimalValue(keys[b].kid) {
      DecimalRoundTrip(valid[a].kid);
      DecimalRoundTrip(valid[b].kid);
    }
  }

  /**
   * A token issued for an unexpired key can be checked against the key
   * set published at the same instant: a record carries its `kid` and the
   * public numbers of the key that signed it.
   */
  lemma IssuedTokenIsPublished(rows: seq<Row>, now: int, derive: Pem -> PublicNumbers)
    requires SelectOne(rows, false, now).Some?
    ensures var row := SelectOne(rows, false, now).value;
            var t := IssueToken(Selected(row.kid, row.key), false, now);
            var keys := Jwks(rows, now, derive);
            exists j :: 0 <= j < |keys| && keys[j].kid == t.kid && keys[j] == JwkOf(row, derive)
  {
    hide IntToBase64;
    var row := SelectOne(rows, false, now).value;
    var valid := ValidRows(rows, now);
    ValidRowsMembers(rows, now);
    assert row in valid;
    var j :| 0 <= j < |valid| && valid[j] == row;
    assert Jwks(rows, now, derive)[j] == JwkOf(row, derive);
  }

  /** The rows a new database holds once `StartServer` has seeded it at `now`. */
  function FreshRows(key: Pem, now: int): seq<Row>
  {
    [Row(1, key, now + OneHour), Row(2, key, now - OneHour)]
  }

  /**
   * Just after startup, `POST /auth` signs with key 1 and an `exp` an hour
   * ahead, and so does `POST /auth?expired`, whose bare flag is dropped.
   */
  lemma FreshStartValidToken(key: Pem, now: int, derive: Pem -> PublicNumbers)
    ensures Respond(Request(POST, "/auth", "/auth", ""), FreshRows(key, now), now, derive) ==
              Response(200, Jwt(Token("RS256", "1", "username", now + OneHour)))
    ensures Respond(Request(POST, "/auth?expired", "/auth", "expired"), FreshRows(key, now), now, derive) ==
              Response(200, Jwt(Token("RS256", "1", "username", now + OneHour)))
  {
    var rows := FreshRows(key, now);
    BareExpiredIsIgnored();
    assert DecimalString(1) == "1";
    assert SelectOne(rows, false, now) == Some(rows[0]);
  }

  /** Just after startup, `POST /auth?expired=true` signs with key 2 and an `exp` an hour ago. */
  lemma FreshStartExpiredToken(key: Pem, now: int, derive: Pem -> PublicNumbers)
    ensures Respond(Request(POST, "/auth?expired=true", "/auth", "expired=true"), FreshRows(key, now), now, derive) ==
              Response(200, Jwt(Token("RS256", "2", "username", now - OneHour)))
  {
    var rows := FreshRows(key, now);
    ExpiredWithValueIsSeen("true", "");
    assert "expired=" + "true" == "expired=true";
    assert DecimalString(2) == "2";
    assert SelectOne(rows[1..], true, now) == Some(rows[1]);
    assert SelectOne(rows, true, now) == Some(rows[1]);
  }

  /**
   * Just after startup the key set lists key 1 alone, and the JWKS path
   * with a query string attached is refused.
   */
  lemma FreshStartKeySet(key: Pem, now: int, derive: Pem -> PublicNumbers)
    ensures Respond(Request(GET, JwksPath, JwksPath, ""), FreshRows(key, now), now, derive) ==
              Response(200, KeySet([JwkOf(Row(1, key, now + OneHour), derive)]))
    ensures Respond(Request(GET, JwksPath + "?x=1", JwksPath, "x=1"), FreshRows(key, now), now, derive) ==
              Response(405, Empty)
  {
    hide IntToBase64;
    var rows := FreshRows(key, now);
    assert rows[1..][1..] == [];
    assert ValidRows(rows, now) == [rows[0]];
    var keys := Jwks(rows, now, derive);
    assert |keys| == 1 && keys[0] == JwkOf(rows[0], derive);
    assert keys == [JwkOf(rows[0], derive)];
    assert JwksPath + "?x=1" != JwksPath by {
      assert |JwksPath + "?x=1"| != |JwksPath|;
    }
  }
}
