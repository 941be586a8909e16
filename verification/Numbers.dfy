/** Decimal numbers as text. */
module Numbers {
  import opened Common
  import opened Seqs

  predicate IsDigit(c: char) {
    '0' <= c <= '9'
  }

  function Digits(n: nat): (s: string)
    ensures s != "" && forall i | 0 <= i < |s| :: IsDigit(s[i])
  {
    if n < 10 then [(n + 48) as char] else Digits(n / 10) + [(n % 10 + 48) as char]
  }

  predicate AllDigits(s: string) {
    forall i | 0 <= i < |s| :: IsDigit(s[i])
  }

  function Value(s: string): nat
    requires AllDigits(s)
  {
    if s == "" then 0 else assert IsDigit(s[|s| - 1]); 10 * Value(s[..|s| - 1]) + (s[|s| - 1] as int - 48)
  }

  /** `str::parse` for an unsigned type whose greatest value is `max`: an optional plus sign and at
      least one digit. */
  function ParseUint(s: string, max: nat): (r: Option<nat>)
    ensures r.Some? ==> r.value <= max
  {
    var body := if s != "" && s[0] == '+' then s[1..] else s;
    if body == "" || !AllDigits(body) then None
    else if Value(body) > max then None
    else Some(Value(body))
  }

  lemma {:induction false} ValueOfDigits(n: nat)
    ensures Value(Digits(n)) == n
  {
    if n >= 10 {
      ValueOfDigits(n / 10);
      var s := Digits(n);
      assert s[..|s| - 1] == Digits(n / 10);
    }
  }

  lemma ParseDigits(n: nat, max: nat)
    requires n <= max
    ensures ParseUint(Digits(n), max) == Some(n)
  {
    ValueOfDigits(n);
    assert IsDigit(Digits(n)[0]);
  }

  /** Decimal places: a digit for each number below ten, and one more digit for ten times as much. */
  lemma DecimalPlaces(n: nat, d: nat)
    requires d < 10
    ensures Digits(d) == ["0123456789"[d]]
    ensures n > 0 ==> Digits(10 * n + d) == Digits(n) + Digits(d)
  {
    assert (10 * n + d) / 10 == n && (10 * n + d) % 10 == d;
  }

  /** `v` writes `n`: perhaps a plus sign, perhaps zeros, and the digits of `n`. */
  ghost predicate Writes(v: string, n: nat) {
    exists sign, zeros :: AllZeros(zeros) && (sign == "" || sign == "+") && v == sign + (zeros + Digits(n))
  }

  predicate AllZeros(s: string) {
    forall i | 0 <= i < |s| :: s[i] == '0'
  }

  lemma {:induction false} LeadingZeros(zeros: string, s: string)
    requires AllZeros(zeros) && AllDigits(s)
    ensures AllDigits(zeros + s) && Value(zeros + s) == Value(s)
    decreases |s| + |zeros|
  {
    var all := zeros + s;
    if s != "" {
      assert all[..|all| - 1] == zeros + s[..|s| - 1];
      LeadingZeros(zeros, s[..|s| - 1]);
    } else if zeros != "" {
      assert all[..|all| - 1] == zeros[..|zeros| - 1] + s;
      LeadingZeros(zeros[..|zeros| - 1], s);
    }
  }

  lemma {:induction false} ZerosInFront(s: string) returns (zeros: string)
    requires s != "" && AllDigits(s)
    ensures AllZeros(zeros) && s == zeros + Digits(Value(s))
  {
    hide Digits, Value;
    if |s| == 1 {
      OneDigit(s);
      zeros := "";
    } else {
      ValueStep(s);
      var front, last := s[..|s| - 1], s[|s| - 1] as int - 48;
      assert IsDigit(s[|s| - 1]);
      var before := ZerosInFront(front);
      DecimalPlaces(Value(front), last);
      OneDigit([s[|s| - 1]]);
      assert s == front + [s[|s| - 1]];
      if Value(front) == 0 {
        zeros := before + "0";
        DecimalPlaces(0, 0);
      } else {
        zeros := before;
      }
    }
  }

  lemma ValueStep(s: string)
    requires s != "" && AllDigits(s)
    ensures AllDigits(s[..|s| - 1]) && IsDigit(s[|s| - 1])
    ensures Value(s) == 10 * Value(s[..|s| - 1]) + (s[|s| - 1] as int - 48)
  {
    assert IsDigit(s[|s| - 1]);
  }

  lemma OneDigit(s: string)
    requires |s| == 1 && IsDigit(s[0])
    ensures Value(s) == s[0] as int - 48 && Digits(Value(s)) == s
  {
    assert s[..0] == "";
  }

  lemma ParsedText(v: string, max: nat) returns (sign: string, body: string)
    requires ParseUint(v, max).Some?
    ensures (sign == "" || sign == "+") && v == sign + body && body != "" && AllDigits(body)
    ensures ParseUint(v, max) == Some(Value(body))
  {
    sign := if v != "" && v[0] == '+' then "+" else "";
    body := if v != "" && v[0] == '+' then v[1..] else v;
    hide Value;
  }

  lemma Reads(sign: string, body: string, max: nat)
    requires (sign == "" || sign == "+") && body != "" && AllDigits(body) && Value(body) <= max
    ensures ParseUint(sign + body, max) == Some(Value(body))
  {
    hide Value;
    assert IsDigit(body[0]);
    var v := sign + body;
    if sign == "+" {
      assert v[0] == '+' && v[1..] == body;
    } else {
      assert v == body;
    }
  }

  /** A number is read exactly from its own digits, with or without a plus sign and leading zeros, and
      only up to the bound. */
  lemma ParseUintExactly(v: string, n: nat, max: nat)
    ensures ParseUint(v, max) == Some(n) <==> n <= max && Writes(v, n)
  {
    hide Value, ParseUint, Digits;
    if ParseUint(v, max) == Some(n) {
      var sign, body := ParsedText(v, max);
      var zeros := ZerosInFront(body);
      assert v == sign + (zeros + Digits(n));
    }
    if n <= max && Writes(v, n) {
      var sign, zeros :| AllZeros(zeros) && (sign == "" || sign == "+") && v == sign + (zeros + Digits(n));
      LeadingZeros(zeros, Digits(n));
      ValueOfDigits(n);
      Reads(sign, zeros + Digits(n), max);
    }
  }
}
