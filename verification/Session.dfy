/** internal/centralserver/session.go: session cookies as a signed expiry timestamp. The HMAC and its
    base64 text stay one uninterpreted function of the payload, fixed by the signer's key. */
module Session {
  import opened Values

  /** sessionTTL in seconds. */
  const SESSION_TTL := 7 * 24 * 3600

  datatype Signer = Signer(signature: string -> string)

  // ---- strconv ----

  function Digit(d: nat): char
    requires d < 10
  {
    '0' + d as char
  }

  predicate IsDigit(c: char) {
    '0' <= c <= '9'
  }

  function FormatNat(n: nat): string {
    if n < 10 then [Digit(n)] else FormatNat(n / 10) + [Digit(n % 10)]
  }

  /** strconv.FormatInt(i, 10) */
  function FormatInt(i: Int64): string {
    var n: int := i;
    if n < 0 then "-" + FormatNat(-n) else FormatNat(n)
  }

  function DigitOf(c: char): nat
    requires IsDigit(c)
  {
    c as int - '0' as int
  }

  predicate AllDigits(s: string) {
    s != "" && forall c | c in s :: IsDigit(c)
  }

  function DigitsValue(s: string): nat
    requires forall c | c in s :: IsDigit(c)
  {
    if s == "" then 0
    else
      assert s[|s| - 1] in s;
      DigitsValue(s[..|s| - 1]) * 10 + DigitOf(s[|s| - 1])
  }

  /** strconv.ParseInt(s, 10, 64): an optional sign, at least one digit, and a value in range. */
  function ParseInt(s: string): Option<Int64> {
    if s == "" then None
    else
      var negative := s[0] == '-';
      var digits := if negative || s[0] == '+' then s[1..] else s;
      if !AllDigits(digits) then None
      else
        var magnitude := DigitsValue(digits);
        var value: int := if negative then 0 - magnitude else magnitude;
        if -0x8000_0000_0000_0000 <= value < 0x8000_0000_0000_0000 then Some(value) else None
  }

  lemma {:induction false} FormatNatIsDigits(n: nat)
    ensures AllDigits(FormatNat(n)) && DigitsValue(FormatNat(n)) == n
  {
    if n >= 10 {
      FormatNatIsDigits(n / 10);
      var s := FormatNat(n);
      assert s[..|s| - 1] == FormatNat(n / 10);
    } else {
      assert FormatNat(n)[..0] == "";
    }
  }

  function Pow10(k: nat): nat {
    if k == 0 then 1 else 10 * Pow10(k - 1)
  }

  /** The printed digits, from the last one on, are those of the decimal expansion, without leading zeros. */
  lemma {:induction false} PrintedInDecimal(n: nat)
    ensures forall k | 0 <= k < |FormatNat(n)| ::
              Pow10(k) > 0 && FormatNat(n)[|FormatNat(n)| - 1 - k] as int == 48 + n / Pow10(k) % 10
    ensures n > 0 ==> FormatNat(n)[0] != '0'
    ensures n < Pow10(|FormatNat(n)|)
  {
    if n >= 10 {
      PrintedInDecimal(n / 10);
      var s, shorter := FormatNat(n), FormatNat(n / 10);
      forall k | 0 < k < |s| ensures Pow10(k) > 0 && s[|s| - 1 - k] as int == 48 + n / Pow10(k) % 10 {
        assert s[|s| - 1 - k] == shorter[|shorter| - 1 - (k - 1)];
        DivideTwice(n, Pow10(k - 1));
      }
    }
  }

  lemma DivideTwice(n: nat, p: nat)
    requires p > 0
    ensures n / (10 * p) == n / 10 / p
  {
    var q := n / 10 / p;
    assert n / 10 == p * q + n / 10 % p;
    QuotientIs(n, 10 * p, q);
  }

  lemma QuotientIs(n: nat, d: nat, q: nat)
    requires d > 0 && d * q <= n < d * q + d
    ensures n / d == q
  {
    assert n == d * (n / d) + n % d;
    if n / d > q { TimesGrows(d, q + 1, n / d); }
    if n / d < q { TimesGrows(d, n / d + 1, q); }
  }

  lemma TimesGrows(d: nat, x: nat, y: nat)
    requires x <= y
    ensures d * x <= d * y
  {
  }

  /** Printing and parsing back is the identity on every int64, the most negative one included. */
  lemma ParsePrinted(i: Int64)
    ensures ParseInt(FormatInt(i)) == Some(i)
  {
    var n: int := i;
    if n < 0 {
      FormatNatIsDigits(-n);
      hide FormatNat, DigitsValue;
      assert FormatInt(i)[1..] == FormatNat(-n);
    } else {
      FormatNatIsDigits(n);
      hide FormatNat, DigitsValue;
      assert FormatNat(n)[0] in FormatNat(n);
    }
  }

  lemma PrintedHasNoDot(i: Int64)
    ensures '.' !in FormatInt(i)
  {
    var n: int := i;
    FormatNatIsDigits(if n < 0 then -n else n);
    hide FormatNat, DigitsValue;
  }

  // ---- cookies ----

  /** The part of `s` before its first dot, as `strings.Cut(s, ".")` finds it. */
  function Cut(s: string): Option<string> {
    if s == "" then None
    else if s[0] == '.' then Some("")
    else match Cut(s[1..])
         case None => None
         case Some(front) => Some([s[0]] + front)
  }

  lemma {:induction false} CutAtFirstDot(front: string, back: string)
    requires '.' !in front
    ensures Cut(front + "." + back) == Some(front)
  {
    if front != "" {
      assert (front + "." + back)[1..] == front[1..] + "." + back;
      CutAtFirstDot(front[1..], back);
      assert front == [front[0]] + front[1..];
    }
  }

  function Sign(signer: Signer, expiresAt: Int64): string {
    var payload := FormatInt(expiresAt);
    payload + "." + signer.signature(payload)
  }

  function Issue(signer: Signer, now: int): string
    requires -0x8000_0000_0000_0000 <= now && now + SESSION_TTL < 0x8000_0000_0000_0000
  {
    Sign(signer, now + SESSION_TTL)
  }

  predicate Valid(signer: Signer, v: string, now: int) {
    match Cut(v)
    case None => false
    case Some(payload) =>
      (match ParseInt(payload)
       case None => false
       case Some(expiresAt) => now < expiresAt && v == Sign(signer, expiresAt))
  }

  lemma SignedParses(signer: Signer, expiresAt: Int64)
    ensures Cut(Sign(signer, expiresAt)) == Some(FormatInt(expiresAt))
    ensures ParseInt(FormatInt(expiresAt)) == Some(expiresAt)
  {
    ParsePrinted(expiresAt);
    PrintedHasNoDot(expiresAt);
    CutAtFirstDot(FormatInt(expiresAt), signer.signature(FormatInt(expiresAt)));
  }

  /** Exactly the printed later expiry times with their own signature are accepted: no other signature, and
      no other spelling of a timestamp (a plus sign, leading zeros, a negative zero) gets through. */
  lemma AcceptedExactly(signer: Signer, v: string, now: int)
    ensures Valid(signer, v, now) <==>
            exists expiresAt: Int64 ::
              now < expiresAt && v == FormatInt(expiresAt) + "." + signer.signature(FormatInt(expiresAt))
  {
    if expiresAt: Int64 :|
         now < expiresAt && v == FormatInt(expiresAt) + "." + signer.signature(FormatInt(expiresAt)) {
      SignedParses(signer, expiresAt);
    }
  }

  /** Two expiry times never share a cookie. */
  lemma SignIsInjective(signer: Signer, e: Int64, f: Int64)
    requires Sign(signer, e) == Sign(signer, f)
    ensures e == f
  {
    SignedParses(signer, e);
    SignedParses(signer, f);
  }

  /** A cookie issued at `issued` names the time seven days later and is valid until exactly then. */
  lemma IssuedUntilExpiry(signer: Signer, issued: int, now: int)
    requires -0x8000_0000_0000_0000 <= issued && issued + 604800 < 0x8000_0000_0000_0000
    ensures var payload := FormatInt(issued + 604800);
            Issue(signer, issued) == payload + "." + signer.signature(payload)
    ensures Valid(signer, Issue(signer, issued), now) <==> now < issued + 604800
  {
    SignedParses(signer, issued + SESSION_TTL);
  }
}
