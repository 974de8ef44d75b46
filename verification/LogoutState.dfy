/**
 The signed OIDC logout state of backend/cmd/headlamp.go. Base64url and HMAC-SHA256 are given as
 functions; decimal numbers and the splitting of strings are written out. Times are Unix seconds.
 */
module LogoutState {
  import opened Common

  const DOT := '.'
  const COLON := ':'
  const MINUTE := 60

  /** base64.RawURLEncoding and hmac.New(sha256.New, key). */
  datatype Crypto = Crypto(encode: string -> string, decode: string -> Option<string>, mac: (string, string) -> string)

  /** What is relied on: decoding undoes encoding, and the alphabet has no dot. */
  ghost predicate Lawful(crypto: Crypto) {
    forall s :: crypto.decode(crypto.encode(s)) == Some(s) && DOT !in crypto.encode(s)
  }

  // ----- Splitting --------------------------------------------------------------------------

  /** strings.SplitN with a one-character separator and n >= 1. */
  function SplitN(s: string, sep: char, n: nat): (r: seq<string>)
    requires n >= 1
    ensures 1 <= |r| <= n
    decreases |s|
  {
    if n == 1 || s == "" then [s]
    else if s[0] == sep then [""] + SplitN(s[1..], sep, n - 1)
    else
      var rest := SplitN(s[1..], sep, n);
      [[s[0]] + rest[0]] + rest[1..]
  }

  lemma {:induction false} SplitNOff(a: string, b: string, sep: char, n: nat)
    requires sep !in a && n >= 2
    ensures SplitN(a + [sep] + b, sep, n) == [a] + SplitN(b, sep, n - 1)
  {
    var s := a + [sep] + b;
    if a == "" {
      assert s == [sep] + b && s[1..] == b;
    } else {
      assert s[1..] == a[1..] + [sep] + b;
      SplitNOff(a[1..], b, sep, n);
      assert a == [a[0]] + a[1..];
    }
  }

  lemma {:induction false} SplitNHead(s: string, sep: char, n: nat)
    requires n >= 2
    ensures var r := SplitN(s, sep, n);
            && sep !in r[0]
            && (|r| > 1 ==>
                  && |r[0]| < |s| && s == r[0] + [sep] + s[|r[0]| + 1..]
                  && SplitN(s[|r[0]| + 1..], sep, n - 1) == r[1..])
    decreases |s|
  {
    if s != "" && s[0] != sep {
      SplitNHead(s[1..], sep, n);
      var rest := SplitN(s[1..], sep, n);
      assert SplitN(s, sep, n)[1..] == rest[1..];
      if |rest| > 1 { assert s[1..][|rest[0]| + 1..] == s[|rest[0]| + 2..]; }
      assert s == [s[0]] + s[1..];
    }
  }

  /** Three pieces: two separators, the first two of however many there are. */
  lemma SplitNThree(s: string, sep: char, a: string, b: string, c: string)
    ensures SplitN(s, sep, 3) == [a, b, c] <==> s == a + [sep] + (b + [sep] + c) && sep !in a && sep !in b
  {
    if s == a + [sep] + (b + [sep] + c) && sep !in a && sep !in b {
      SplitNOff(a, b + [sep] + c, sep, 3);
      SplitNOff(b, c, sep, 2);
      assert SplitN(c, sep, 1) == [c];
    }
    if SplitN(s, sep, 3) == [a, b, c] {
      SplitNHead(s, sep, 3);
      var rest := s[|a| + 1..];
      assert SplitN(s, sep, 3)[1..] == [b, c];
      SplitNHead(rest, sep, 2);
      assert SplitN(rest, sep, 2)[1..] == [c];
    }
  }

  // ----- Decimal numbers --------------------------------------------------------------------

  const MAX_INT64 := 0x7FFF_FFFF_FFFF_FFFF

  predicate Int64(n: int) {
    -MAX_INT64 - 1 <= n <= MAX_INT64
  }

  function Digit(d: nat): char
    requires d < 10
  {
    '0' + d as char
  }

  function FormatNat(n: nat): string {
    if n < 10 then [Digit(n)] else FormatNat(n / 10) + [Digit(n % 10)]
  }

  /** strconv.FormatInt in base ten. */
  function FormatInt(n: int): string {
    if n < 0 then "-" + FormatNat(-n) else FormatNat(n)
  }

  function ParseDigits(s: string): Option<nat> {
    if s == "" then Some(0)
    else
      var rest := ParseDigits(s[..|s| - 1]);
      var c := s[|s| - 1];
      if rest.None? || !('0' <= c <= '9') then None else Some(rest.value * 10 + (c - '0') as nat)
  }

  /** strconv.ParseInt(s, 10, 64): an optional sign, at least one digit, and a value that fits. */
  function ParseInt(s: string): Option<int> {
    var signed := s != "" && (s[0] == '+' || s[0] == '-');
    var digits := if signed then s[1..] else s;
    var value := ParseDigits(digits);
    if digits == "" || value.None? then None
    else
      var magnitude: int := value.value;
      var n := if signed && s[0] == '-' then -magnitude else magnitude;
      if Int64(n) then Some(n) else None
  }

  lemma {:induction false} FormatNatParses(n: nat)
    ensures ParseDigits(FormatNat(n)) == Some(n)
    ensures FormatNat(n) != "" && forall c :: c in FormatNat(n) ==> '0' <= c <= '9'
  {
    if n < 10 {
      assert [Digit(n)][..0] == "";
    } else {
      FormatNatParses(n / 10);
      var s := FormatNat(n);
      assert s[..|s| - 1] == FormatNat(n / 10);
    }
  }

  lemma FormatThenParse(n: int)
    ensures ParseInt(FormatInt(n)) == if Int64(n) then Some(n) else None
    ensures COLON !in FormatInt(n)
  {
    var digits := FormatNat(if n < 0 then -n else n);
    FormatNatParses(if n < 0 then -n else n);
    if n < 0 {
      assert FormatInt(n)[1..] == digits;
    } else {
      assert digits[0] in digits;
    }
  }

  /** Without leading zeros, but at least one digit. */
  function Stripped(digits: string): string {
    if |digits| > 1 && digits[0] == '0' then Stripped(digits[1..]) else digits
  }

  predicate AllDigits(s: string) {
    s != "" && forall i :: 0 <= i < |s| ==> '0' <= s[i] <= '9'
  }

  lemma {:induction false} ParseDigitsExactly(s: string)
    ensures ParseDigits(s).Some? <==> forall i :: 0 <= i < |s| ==> '0' <= s[i] <= '9'
    ensures s != "" && ParseDigits(s).Some? ==> Stripped(s) == FormatNat(ParseDigits(s).value)
  {
    if s != "" {
      var front, c := s[..|s| - 1], s[|s| - 1];
      ParseDigitsExactly(front);
      assert forall i :: 0 <= i < |front| ==> front[i] == s[i];
      assert s == front + [c];
      if ParseDigits(s).Some? { StrippedSnoc(front, c); }
    }
  }

  lemma {:induction false} StrippedSnoc(front: string, c: char)
    requires '0' <= c <= '9' && ParseDigits(front).Some?
    requires front != "" ==> Stripped(front) == FormatNat(ParseDigits(front).value)
    ensures Stripped(front + [c]) == FormatNat(ParseDigits(front).value * 10 + (c - '0') as nat)
  {
    var n, d := if front == "" then 0 else ParseDigits(front).value, (c - '0') as nat;
    StrippedAppend(front, c);
    assert (n * 10 + d) / 10 == n && (n * 10 + d) % 10 == d;
    FormatNatParses(n);
    if n == 0 && front != "" {
      assert Stripped(front) == ['0'];
    } else if n > 0 {
      StrippedNonZero(front, n);
    }
  }

  lemma StrippedAppend(front: string, c: char)
    ensures Stripped(front + [c]) == if front == "" || Stripped(front) == "0" then [c] else Stripped(front) + [c]
  {
    if |front| > 0 {
      assert (front + [c])[1..] == front[1..] + [c];
      if front[0] == '0' && |front| > 1 { StrippedAppend(front[1..], c); }
      if front == ['0'] { assert (front + [c])[1..] == [c]; }
    } else {
      assert front + [c] == [c];
    }
  }

  lemma StrippedNonZero(front: string, n: nat)
    requires n > 0 && Stripped(front) == FormatNat(n)
    ensures Stripped(front) != "0"
  {
    FormatNatParses(n);
    assert ParseDigits("0") == Some(0) by { assert "0"[..0] == ""; }
  }

  /**
   strconv.ParseInt accepts exactly an optional sign and digits whose value fits 64 bits, and the value
   is the one that prints as those digits without leading zeros.
   */
  lemma ParseIntExactly(s: string, n: int)
    ensures ParseInt(s) == Some(n) <==>
            var signed := s != "" && s[0] in {'+', '-'};
            var digits := if signed then s[1..] else s;
            && AllDigits(digits) && Int64(n)
            && (n < 0 ==> signed && s[0] == '-') && (n > 0 ==> !(signed && s[0] == '-'))
            && Stripped(digits) == FormatNat(if n < 0 then -n else n)
  {
    var signed := s != "" && s[0] in {'+', '-'};
    var digits := if signed then s[1..] else s;
    DigitsExactly(digits, if n < 0 then -n else n);
  }

  lemma DigitsExactly(digits: string, m: nat)
    ensures AllDigits(digits) <==> digits != "" && ParseDigits(digits).Some?
    ensures AllDigits(digits) ==> (ParseDigits(digits).value == m <==> Stripped(digits) == FormatNat(m))
  {
    ParseDigitsExactly(digits);
    FormatNatParses(m);
    if AllDigits(digits) { FormatNatParses(ParseDigits(digits).value); }
  }

  // ----- The state --------------------------------------------------------------------------

  function Payload(crypto: Crypto, expires: int, uuid: string, cluster: string): string {
    FormatInt(expires) + [COLON] + (uuid + [COLON] + crypto.encode(cluster))
  }

  /** createOIDCLogoutState with the UUID it draws. */
  function Create(crypto: Crypto, cluster: string, idToken: string, now: int, uuid: string): string {
    var encoded := crypto.encode(Payload(crypto, now + MINUTE, uuid, cluster));
    encoded + [DOT] + crypto.encode(crypto.mac(idToken, encoded))
  }

  /** The expiry time a payload names for a cluster. */
  function ExpiryFor(crypto: Crypto, payload: string, cluster: string): Option<int> {
    var parts := SplitN(payload, COLON, 3);
    if |parts| != 3 || parts[2] != crypto.encode(cluster) then None else ParseInt(parts[0])
  }

  /** validateOIDCLogoutState. */
  function Validate(crypto: Crypto, state: string, cluster: string, idToken: string, now: int): bool {
    var parts := Split(state, DOT);
    if |parts| != 2 then false
    else
      var payload := crypto.decode(parts[0]);
      if payload.None? then false
      else
        var expires := ExpiryFor(crypto, payload.value, cluster);
        if expires.None? || now > expires.value || expires.value > now + MINUTE then false
        else crypto.decode(parts[1]) == Some(crypto.mac(idToken, parts[0]))
  }

  lemma CreatedParts(crypto: Crypto, cluster: string, idToken: string, t: int, uuid: string)
    requires Lawful(crypto)
    ensures var encoded := crypto.encode(Payload(crypto, t + MINUTE, uuid, cluster));
            Split(Create(crypto, cluster, idToken, t, uuid), DOT)
            == [encoded, crypto.encode(crypto.mac(idToken, encoded))]
  {
    var encoded := crypto.encode(Payload(crypto, t + MINUTE, uuid, cluster));
    var signature := crypto.encode(crypto.mac(idToken, encoded));
    assert DOT !in encoded && DOT !in signature;
    SplitOff(encoded, signature, DOT);
    SplitNone(signature, DOT);
  }

  lemma PayloadExpiry(crypto: Crypto, expires: int, uuid: string, cluster: string, other: string)
    requires Lawful(crypto) && COLON !in uuid && Int64(expires)
    ensures ExpiryFor(crypto, Payload(crypto, expires, uuid, cluster), other)
         == if other == cluster then Some(expires) else None
  {
    FormatThenParse(expires);
    var tail := uuid + [COLON] + crypto.encode(cluster);
    SplitNOff(FormatInt(expires), tail, COLON, 3);
    SplitNOff(uuid, crypto.encode(cluster), COLON, 2);
    assert SplitN(crypto.encode(cluster), COLON, 1) == [crypto.encode(cluster)];
    assert crypto.decode(crypto.encode(cluster)) == Some(cluster) && crypto.decode(crypto.encode(other)) == Some(other);
  }

  /**
   A state made at second t for a cluster and a token validates exactly for that cluster, from t
   through t + 60, under a token that signs the payload as the first one does.
   */
  lemma CreatedValidatesExactly(crypto: Crypto, cluster: string, idToken: string, t: int, uuid: string, other: string,
                                token: string, now: int)
    requires Lawful(crypto) && COLON !in uuid && Int64(t + MINUTE)
    ensures var encoded := crypto.encode(Payload(crypto, t + MINUTE, uuid, cluster));
            Validate(crypto, Create(crypto, cluster, idToken, t, uuid), other, token, now)
            <==> other == cluster && t <= now <= t + MINUTE
                 && crypto.mac(token, encoded) == crypto.mac(idToken, encoded)
  {
    var payload := Payload(crypto, t + MINUTE, uuid, cluster);
    var encoded := crypto.encode(payload);
    CreatedParts(crypto, cluster, idToken, t, uuid);
    PayloadExpiry(crypto, t + MINUTE, uuid, cluster, other);
    assert crypto.decode(encoded) == Some(payload);
    assert crypto.decode(crypto.encode(crypto.mac(idToken, encoded))) == Some(crypto.mac(idToken, encoded));
  }

  /** The same cluster and token: exactly the sixty-one seconds from t. */
  lemma RoundTrip(crypto: Crypto, cluster: string, idToken: string, t: int, uuid: string, now: int)
    requires Lawful(crypto) && COLON !in uuid && Int64(t + MINUTE)
    ensures Validate(crypto, Create(crypto, cluster, idToken, t, uuid), cluster, idToken, now)
            <==> t <= now <= t + MINUTE
  {
    CreatedValidatesExactly(crypto, cluster, idToken, t, uuid, cluster, idToken, now);
  }

  /** The payload names a cluster and an expiry time in the window. */
  ghost predicate PayloadFits(crypto: Crypto, payload: string, cluster: string, now: int) {
    exists time, nonce, expires ::
      && payload == time + [COLON] + (nonce + [COLON] + crypto.encode(cluster))
      && COLON !in time && COLON !in nonce && ParseInt(time) == Some(expires) && now <= expires <= now + 60
  }

  ghost predicate SignedBy(crypto: Crypto, state: string, cluster: string, idToken: string, now: int,
                           payload: string, signature: string) {
    && state == payload + [DOT] + signature && DOT !in payload && DOT !in signature
    && crypto.decode(payload).Some? && PayloadFits(crypto, crypto.decode(payload).value, cluster, now)
    && crypto.decode(signature) == Some(crypto.mac(idToken, payload))
  }

  lemma ExpiryExactly(crypto: Crypto, payload: string, cluster: string, now: int)
    ensures (var e := ExpiryFor(crypto, payload, cluster); e.Some? && now <= e.value <= now + MINUTE)
            <==> PayloadFits(crypto, payload, cluster, now)
  {
    var parts := SplitN(payload, COLON, 3);
    if |parts| == 3 { SplitNThree(payload, COLON, parts[0], parts[1], parts[2]); }
    if time, nonce, expires :|
      && payload == time + [COLON] + (nonce + [COLON] + crypto.encode(cluster))
      && COLON !in time && COLON !in nonce && ParseInt(time) == Some(expires) && now <= expires <= now + 60
    {
      SplitNThree(payload, COLON, time, nonce, crypto.encode(cluster));
    }
  }

  /**
   What validation accepts, whoever made the string: two parts around a single dot; the first decodes
   to an expiry time no earlier than now and at most a minute ahead, a nonce and the cluster; the
   second decodes to the first one's signature under the token.
   */
  lemma ValidatesExactlyWhen(crypto: Crypto, state: string, cluster: string, idToken: string, now: int)
    ensures Validate(crypto, state, cluster, idToken, now)
            <==> exists payload, signature :: SignedBy(crypto, state, cluster, idToken, now, payload, signature)
  {
    var parts := Split(state, DOT);
    if |parts| == 2 {
      assert parts == [parts[0], parts[1]];
      SplitTwo(state, DOT, parts[0], parts[1]);
      if crypto.decode(parts[0]).Some? { ExpiryExactly(crypto, crypto.decode(parts[0]).value, cluster, now); }
      if Validate(crypto, state, cluster, idToken, now) {
        assert SignedBy(crypto, state, cluster, idToken, now, parts[0], parts[1]);
      }
    }
    if payload, signature :| SignedBy(crypto, state, cluster, idToken, now, payload, signature) {
      SplitTwo(state, DOT, payload, signature);
      ExpiryExactly(crypto, crypto.decode(payload).value, cluster, now);
    }
  }

  /** No string whatever, however it was made, is valid for two clusters, at any times and under any tokens. */
  lemma ValidForOneClusterOnly(crypto: Crypto, state: string, a: string, b: string, tokenA: string, tokenB: string,
                               nowA: int, nowB: int)
    requires Lawful(crypto)
    requires Validate(crypto, state, a, tokenA, nowA) && Validate(crypto, state, b, tokenB, nowB)
    ensures a == b
  {
    assert crypto.decode(crypto.encode(a)) == Some(a) && crypto.decode(crypto.encode(b)) == Some(b);
  }

  /** Any string that is ever valid is valid for exactly one window of sixty-one seconds. */
  lemma OneWindow(crypto: Crypto, state: string, cluster: string, idToken: string, seen: int) returns (start: int)
    requires Validate(crypto, state, cluster, idToken, seen)
    ensures forall now :: Validate(crypto, state, cluster, idToken, now) <==> start <= now <= start + MINUTE
  {
    var payload := crypto.decode(Split(state, DOT)[0]).value;
    start := ExpiryFor(crypto, payload, cluster).value - MINUTE;
  }
}
