/** Object identifiers as strings (network/snmp_client.go, type OID): comparing them, attaching
    an index, and taking the index off again. */
module Oid {
  import opened Wrappers

  // ---------- the string functions ----------

  // strings.TrimPrefix(s, ".").
  function TrimPrefixDot(s: string): string {
    if s != "" && s[0] == '.' then s[1..] else s
  }

  function TrimLeft(s: string): string {
    if s != "" && s[0] == '.' then TrimLeft(s[1..]) else s
  }

  function TrimRight(s: string): string {
    if s != "" && s[|s| - 1] == '.' then TrimRight(s[..|s| - 1]) else s
  }

  // strings.Trim(s, ".").
  function Trim(s: string): string {
    TrimRight(TrimLeft(s))
  }

  // strings.Split(s, "."): never empty.
  function Split(s: string): (parts: seq<string>)
    ensures parts != []
  {
    if s == "" then [""]
    else
      var rest := Split(s[1..]);
      if s[0] == '.' then [""] + rest else [[s[0]] + rest[0]] + rest[1..]
  }

  predicate IsDigit(c: char) {
    '0' <= c <= '9'
  }

  predicate AllDigits(s: string) {
    forall c :: c in s ==> IsDigit(c)
  }

  function Value(s: string): int
    requires AllDigits(s)
  {
    if s == "" then 0 else Value(s[..|s| - 1]) * 10 + (s[|s| - 1] as int - '0' as int)
  }

  const INT64_LIMIT: int := 0x8000_0000_0000_0000

  // strconv.Atoi: an optional sign, at least one digit, and the range of a 64-bit int.
  function Atoi(s: string): Option<int> {
    var signed := s != "" && (s[0] == '-' || s[0] == '+');
    var digits := if signed then s[1..] else s;
    if digits == "" || !AllDigits(digits) then None
    else
      var v := if signed && s[0] == '-' then -Value(digits) else Value(digits);
      if -INT64_LIMIT <= v < INT64_LIMIT then Some(v) else None
  }

  // ---------- the methods of OID ----------

  datatype CmpResult = Ordered(sign: int) | BadReceiver | BadInput

  function Parts(o: string): seq<string> {
    Split(Trim(o))
  }

  function CmpFrom(o1: seq<string>, o2: seq<string>, i: nat): CmpResult
    requires i <= |o1|
    decreases |o1| - i
  {
    if i == |o1| then Ordered(if |o1| < |o2| then -1 else 0)
    else if i >= |o2| then Ordered(1)
    else if Atoi(o1[i]).None? then BadReceiver
    else if Atoi(o2[i]).None? then BadInput
    else if Atoi(o1[i]).value < Atoi(o2[i]).value then Ordered(-1)
    else if Atoi(o1[i]).value > Atoi(o2[i]).value then Ordered(1)
    else CmpFrom(o1, o2, i + 1)
  }

  function Cmp(o: string, p: string): CmpResult {
    CmpFrom(Parts(o), Parts(p), 0)
  }

  function AddIndex(o: string, index: string): string {
    var oDot := o != "" && o[|o| - 1] == '.';
    var iDot := index != "" && index[0] == '.';
    if !oDot && !iDot then o + "." + index
    else if oDot && iDot then o[..|o| - 1] + index
    else o + index
  }

  // The string test: no look at component boundaries.
  function GetIndexAfterOID(o: string, base: string): Option<string> {
    var oidStr, baseStr := TrimPrefixDot(o), TrimPrefixDot(base);
    if !(baseStr <= oidStr) then None else Some(Trim(oidStr[|baseStr|..]))
  }

  // ---------- Atoi reads decimal numerals ----------

  function Digit(d: int): char
    requires 0 <= d < 10
  {
    ('0' as int + d) as char
  }

  // n written out by division.
  function Decimal(n: nat): (s: string)
    ensures s != "" && forall i :: 0 <= i < |s| ==> '0' <= s[i] <= '9'
  {
    if n < 10 then [Digit(n)] else Decimal(n / 10) + [Digit(n % 10)]
  }

  function Zeros(k: nat): string {
    seq(k, _ => '0')
  }

  function Magnitude(n: int): nat {
    if n < 0 then -n else n
  }

  // An optional sign, leading zeros and the decimal of n: a way to write n.
  ghost predicate Writes(s: string, n: int, sign: string, k: nat) {
    && (sign == "" || sign == "+" || sign == "-")
    && (n < 0 ==> sign == "-") && (n > 0 ==> sign != "-")
    && s == sign + (Zeros(k) + Decimal(Magnitude(n)))
  }

  lemma {:induction false} ValueDecimal(n: nat)
    ensures AllDigits(Decimal(n)) && Value(Decimal(n)) == n
  {
    AreDigits(Decimal(n));
    if n < 10 {
      assert [Digit(n)][..0] == "";
    } else {
      ValueDecimal(n / 10);
      assert Decimal(n)[..|Decimal(n)| - 1] == Decimal(n / 10);
    }
  }

  lemma AreDigits(s: string)
    requires forall i :: 0 <= i < |s| ==> '0' <= s[i] <= '9'
    ensures AllDigits(s)
  {
  }

  lemma {:induction false} ValueZeros(k: nat, s: string)
    requires AllDigits(s)
    ensures AllDigits(Zeros(k) + s) && Value(Zeros(k) + s) == Value(s)
    decreases k + |s|
  {
    var all := Zeros(k) + s;
    if s != "" {
      ValueZeros(k, s[..|s| - 1]);
      assert all[..|all| - 1] == Zeros(k) + s[..|s| - 1];
    } else if k > 0 {
      ValueZeros(k - 1, "");
      assert all[..|all| - 1] == Zeros(k - 1) + "";
    }
  }

  lemma OneMoreZero(k: nat)
    ensures Zeros(k) + "0" == Zeros(k + 1)
  {
  }

  // One more digit at the end of zeros and a decimal.
  lemma DecimalStep(front: string, j: nat, d: nat) returns (k: nat)
    requires AllDigits(front) && Value(front) >= 0 && front == Zeros(j) + Decimal(Value(front)) && d < 10
    ensures front + [Digit(d)] == Zeros(k) + Decimal(Value(front) * 10 + d)
  {
    if Value(front) == 0 {
      OneMoreZero(j);
      k := j + 1;
    } else {
      LastDigit(Value(front), d);
      Associate(Zeros(j), Decimal(Value(front)), [Digit(d)]);
      k := j;
    }
  }

  lemma SplitLast(s: string)
    requires s != "" && AllDigits(s)
    ensures AllDigits(s[..|s| - 1]) && IsDigit(s[|s| - 1])
    ensures s == s[..|s| - 1] + [Digit(s[|s| - 1] as int - '0' as int)]
  {
  }

  lemma OneDigit(d: nat)
    requires d < 10
    ensures AllDigits([Digit(d)]) && Value([Digit(d)]) == d && [Digit(d)] == Zeros(0) + Decimal(d)
  {
    var s := [Digit(d)];
    assert s[..0] == "" && Value(s[..0]) == 0;
  }

  // Every numeral is zeros and the decimal of its value.
  lemma {:induction false} DigitsAreDecimal(s: string) returns (k: nat)
    requires s != "" && AllDigits(s)
    ensures Value(s) >= 0 && s == Zeros(k) + Decimal(Value(s))
  {
    SplitLast(s);
    if |s| == 1 {
      k := 0;
      ConcatEmpty([s[0]]);
      OneDigit(s[0] as int - '0' as int);
    } else {
      var j := DigitsAreDecimal(s[..|s| - 1]);
      k := DecimalStep(s[..|s| - 1], j, s[|s| - 1] as int - '0' as int);
    }
  }

  lemma LastDigit(v: nat, d: nat)
    requires v > 0 && d < 10
    ensures Decimal(v * 10 + d) == Decimal(v) + [Digit(d)]
  {
    assert (v * 10 + d) / 10 == v && (v * 10 + d) % 10 == d;
  }

  lemma AfterSign(sign: string, digits: string)
    requires |sign| == 1
    ensures |sign + digits| > 0 && (sign + digits)[0] == sign[0] && (sign + digits)[1..] == digits
  {
  }

  lemma AtoiAfterSign(s: string)
    requires |s| > 1 && (s[0] == '+' || s[0] == '-') && AllDigits(s[1..])
    ensures var v := if s[0] == '-' then -Value(s[1..]) else Value(s[1..]);
            Atoi(s) == if -INT64_LIMIT <= v < INT64_LIMIT then Some(v) else None
  {
  }

  lemma AtoiSigned(sign: string, digits: string)
    requires (sign == "" || sign == "+" || sign == "-") && digits != "" && AllDigits(digits)
    ensures var v := if sign == "-" then -Value(digits) else Value(digits);
            Atoi(sign + digits) == if -INT64_LIMIT <= v < INT64_LIMIT then Some(v) else None
  {
    if sign == "" {
      ConcatEmpty(digits);
      assert digits[0] in digits && IsDigit(digits[0]);
    } else {
      AfterSign(sign, digits);
      AtoiAfterSign(sign + digits);
    }
  }

  lemma FirstSplit(s: string)
    requires s != ""
    ensures s == [s[0]] + s[1..]
  {
  }

  lemma AtoiOfWritten(s: string, n: int, sign: string, k: nat)
    requires Writes(s, n, sign, k) && -INT64_LIMIT <= n < INT64_LIMIT
    ensures Atoi(s) == Some(n)
  {
    ValueDecimal(Magnitude(n));
    ValueZeros(k, Decimal(Magnitude(n)));
    AtoiSigned(sign, Zeros(k) + Decimal(Magnitude(n)));
  }

  lemma WrittenOfAtoi(s: string, n: int) returns (sign: string, k: nat)
    requires Atoi(s) == Some(n)
    ensures Writes(s, n, sign, k) && -INT64_LIMIT <= n < INT64_LIMIT
  {
    if s[0] == '-' || s[0] == '+' {
      sign := [s[0]];
      AtoiAfterSign(s);
      FirstSplit(s);
      k := DigitsAreDecimal(s[1..]);
    } else {
      sign := "";
      ConcatEmpty(s);
      k := DigitsAreDecimal(s);
    }
  }

  // Atoi succeeds with n if and only if the string is an optional sign, leading zeros and the
  // decimal of n, and n fits 64 bits.
  lemma AtoiIff(s: string, n: int)
    ensures Atoi(s) == Some(n) <==>
              -0x8000_0000_0000_0000 <= n < 0x8000_0000_0000_0000 && exists sign, k :: Writes(s, n, sign, k)
  {
    if Atoi(s) == Some(n) {
      var sign, k := WrittenOfAtoi(s, n);
    } else if -INT64_LIMIT <= n < INT64_LIMIT {
      forall sign, k | Writes(s, n, sign, k)
        ensures false
      {
        AtoiOfWritten(s, n, sign, k);
      }
    }
  }

  // ---------- Cmp is the lexicographic order ----------

  predicate WellFormed(o: string) {
    forall i :: 0 <= i < |Parts(o)| ==> Atoi(Parts(o)[i]).Some?
  }

  function Ints(o: string): seq<int>
    requires WellFormed(o)
  {
    seq(|Parts(o)|, i requires 0 <= i < |Parts(o)| => Atoi(Parts(o)[i]).value)
  }

  function Lex(a: seq<int>, b: seq<int>): int {
    if a == [] then (if b == [] then 0 else -1)
    else if b == [] then 1
    else if a[0] < b[0] then -1
    else if a[0] > b[0] then 1
    else Lex(a[1..], b[1..])
  }

  lemma {:induction false} CmpFromIsLex(o: string, p: string, i: nat)
    requires WellFormed(o) && WellFormed(p) && i <= |Parts(o)| && i <= |Parts(p)|
    ensures CmpFrom(Parts(o), Parts(p), i) == Ordered(Lex(Ints(o)[i..], Ints(p)[i..]))
    decreases |Parts(o)| - i
  {
    if i < |Parts(o)| && i < |Parts(p)| {
      CmpFromIsLex(o, p, i + 1);
      assert Ints(o)[i..][1..] == Ints(o)[i + 1..] && Ints(p)[i..][1..] == Ints(p)[i + 1..];
    }
  }

  lemma CmpIsLex(o: string, p: string)
    requires WellFormed(o) && WellFormed(p)
    ensures Cmp(o, p) == Ordered(Lex(Ints(o), Ints(p)))
  {
    CmpFromIsLex(o, p, 0);
    assert Ints(o)[0..] == Ints(o) && Ints(p)[0..] == Ints(p);
  }

  lemma {:induction false} LexAntisymmetric(a: seq<int>, b: seq<int>)
    ensures Lex(a, b) == -Lex(b, a) && (Lex(a, b) == 0 <==> a == b)
  {
    if a != [] && b != [] {
      LexAntisymmetric(a[1..], b[1..]);
      assert a[0] == b[0] && a[1..] == b[1..] ==> a == [a[0]] + a[1..] && b == [b[0]] + b[1..];
    }
  }

  lemma {:induction false} LexTransitive(a: seq<int>, b: seq<int>, c: seq<int>)
    requires Lex(a, b) <= 0 && Lex(b, c) <= 0
    ensures Lex(a, c) <= 0 && (Lex(a, b) < 0 || Lex(b, c) < 0 ==> Lex(a, c) < 0)
  {
    if a != [] && b != [] && c != [] && a[0] == b[0] && b[0] == c[0] {
      LexTransitive(a[1..], b[1..], c[1..]);
    }
  }

  // A total order on well-formed OIDs; 0 exactly when the component lists agree.
  lemma CmpTotalOrder(o: string, p: string, q: string)
    requires WellFormed(o) && WellFormed(p) && WellFormed(q)
    ensures Cmp(o, p).Ordered? && Cmp(p, o) == Ordered(-Cmp(o, p).sign)
    ensures Cmp(o, p) == Ordered(0) <==> Ints(o) == Ints(p)
    ensures Cmp(p, q).Ordered? && Cmp(o, q).Ordered?
    ensures Cmp(o, p).sign <= 0 && Cmp(p, q).sign <= 0 ==>
              Cmp(o, q).sign <= 0 && (Cmp(o, q).sign == 0 ==> Cmp(o, p).sign == 0 && Cmp(p, q).sign == 0)
  {
    CmpIsLex(o, p);
    CmpIsLex(p, o);
    CmpIsLex(p, q);
    CmpIsLex(o, q);
    LexAntisymmetric(Ints(o), Ints(p));
    if Lex(Ints(o), Ints(p)) <= 0 && Lex(Ints(p), Ints(q)) <= 0 {
      LexTransitive(Ints(o), Ints(p), Ints(q));
    }
  }

  // Position i decides for an error: everything before agrees, and here one side is no integer.
  predicate FirstBad(a: seq<string>, b: seq<string>, i: nat) {
    && i < |a| && i < |b|
    && (forall j :: 0 <= j < i ==> Atoi(a[j]).Some? && Atoi(a[j]) == Atoi(b[j]))
    && (Atoi(a[i]).None? || Atoi(b[i]).None?)
  }

  lemma {:induction false} CmpFromErrs(a: seq<string>, b: seq<string>, i: nat)
    requires i <= |a| && forall j :: 0 <= j < i ==> j < |b| && Atoi(a[j]).Some? && Atoi(a[j]) == Atoi(b[j])
    ensures CmpFrom(a, b, i).BadReceiver? <==> exists k :: i <= k && FirstBad(a, b, k) && Atoi(a[k]).None?
    ensures CmpFrom(a, b, i).BadInput? <==> exists k :: i <= k && FirstBad(a, b, k) && Atoi(a[k]).Some?
    decreases |a| - i
  {
    if i < |a| && i < |b| && Atoi(a[i]).Some? && Atoi(a[i]) == Atoi(b[i]) {
      CmpFromErrs(a, b, i + 1);
      assert !FirstBad(a, b, i);
    } else if i < |a| && i < |b| && (Atoi(a[i]).None? || Atoi(b[i]).None?) {
      assert FirstBad(a, b, i);
      assert forall k :: i < k ==> !FirstBad(a, b, k);
    } else {
      assert forall k :: i <= k && FirstBad(a, b, k) ==> k > i && Atoi(a[i]) == Atoi(b[i]);
      assert forall k :: i <= k ==> !FirstBad(a, b, k);
    }
  }

  // Cmp fails exactly if a malformed component is met before the first difference, and blames the
  // receiver exactly if its component there is malformed.
  lemma CmpErrsIff(o: string, p: string)
    ensures !Cmp(o, p).Ordered? <==> exists k :: 0 <= k && FirstBad(Parts(o), Parts(p), k)
    ensures Cmp(o, p).BadReceiver? <==>
              exists k :: 0 <= k && FirstBad(Parts(o), Parts(p), k) && Atoi(Parts(o)[k]).None?
    ensures Cmp(o, p).BadInput? <==>
              exists k :: 0 <= k && FirstBad(Parts(o), Parts(p), k) && Atoi(Parts(o)[k]).Some?
  {
    CmpFromErrs(Parts(o), Parts(p), 0);
  }

  // ---------- trimming ----------

  predicate AllDots(s: string) {
    forall i :: 0 <= i < |s| ==> s[i] == '.'
  }

  lemma {:induction false} TrimLeftDots(d: string, s: string)
    requires AllDots(d)
    ensures TrimLeft(d + s) == TrimLeft(s)
  {
    if d == "" {
      assert d + s == s;
    } else {
      assert (d + s)[1..] == d[1..] + s;
      TrimLeftDots(d[1..], s);
    }
  }

  lemma {:induction false} TrimRightDots(s: string, d: string)
    requires AllDots(d)
    ensures TrimRight(s + d) == TrimRight(s)
  {
    if d == "" {
      assert s + d == s;
    } else {
      assert (s + d)[..|s + d| - 1] == s + d[..|d| - 1];
      TrimRightDots(s, d[..|d| - 1]);
    }
  }

  lemma {:induction false} TrimLeftSplits(s: string) returns (d: string)
    ensures AllDots(d) && s == d + TrimLeft(s)
    ensures TrimLeft(s) == "" || TrimLeft(s)[0] != '.'
  {
    if s != "" && s[0] == '.' {
      d := TrimLeftSplits(s[1..]);
      d := "." + d;
    } else {
      d := "";
    }
  }

  lemma {:induction false} TrimRightSplits(s: string) returns (d: string)
    ensures AllDots(d) && s == TrimRight(s) + d
    ensures TrimRight(s) == "" || TrimRight(s)[|TrimRight(s)| - 1] != '.'
  {
    if s != "" && s[|s| - 1] == '.' {
      d := TrimRightSplits(s[..|s| - 1]);
      d := d + ".";
    } else {
      d := "";
    }
  }

  // Trimming on the left does not reach past a character that is no dot.
  lemma {:induction false} TrimLeftStops(s: string, t: string)
    requires TrimLeft(s) != ""
    ensures TrimLeft(s + t) == TrimLeft(s) + t
  {
    assert (s + t)[0] == s[0];
    if s[0] == '.' {
      assert (s + t)[1..] == s[1..] + t;
      TrimLeftStops(s[1..], t);
    }
  }

  lemma {:induction false} TrimRightStops(s: string, t: string)
    requires TrimRight(t) != ""
    ensures TrimRight(s + t) == s + TrimRight(t)
  {
    assert (s + t)[|s + t| - 1] == t[|t| - 1];
    if t[|t| - 1] == '.' {
      assert (s + t)[..|s + t| - 1] == s + t[..|t| - 1];
      TrimRightStops(s, t[..|t| - 1]);
    }
  }

  lemma TrimLeftEmptyIff(s: string)
    ensures TrimLeft(s) == "" <==> AllDots(s)
  {
    var d := TrimLeftSplits(s);
    assert d + "" == d && s + "" == s;
    if AllDots(s) {
      TrimLeftDots(s, "");
    }
  }

  lemma TrimRightEmptyIff(s: string)
    ensures TrimRight(s) == "" <==> AllDots(s)
  {
    var d := TrimRightSplits(s);
    assert "" + d == d && "" + s == s;
    if AllDots(s) {
      TrimRightDots("", s);
    }
  }

  // Both trims keep a string that has something else than dots.
  lemma TrimBoth(s: string)
    ensures TrimLeft(s) == "" <==> AllDots(s)
    ensures TrimRight(s) == "" <==> AllDots(s)
    ensures Trim(s) == "" <==> AllDots(s)
  {
    var d := TrimLeftSplits(s);
    TrimLeftEmptyIff(s);
    TrimRightEmptyIff(s);
    TrimRightEmptyIff(TrimLeft(s));
  }

  lemma TrimDotFront(s: string)
    ensures Trim(TrimPrefixDot(s)) == Trim(s)
  {
    if s != "" && s[0] == '.' {
      assert s == "." + s[1..];
      TrimLeftDots(".", s[1..]);
    }
  }

  // ---------- splitting ----------

  // The last part of a runs on into the first part of b.
  function Glue(a: seq<string>, b: seq<string>): (r: seq<string>)
    requires a != [] && b != []
    ensures r != []
  {
    a[..|a| - 1] + [a[|a| - 1] + b[0]] + b[1..]
  }

  lemma {:induction false} SplitConcat(x: string, y: string)
    ensures Split(x + y) == Glue(Split(x), Split(y))
  {
    if x == "" {
      assert x + y == y && "" + Split(y)[0] == Split(y)[0];
    } else {
      assert (x + y)[1..] == x[1..] + y && (x + y)[0] == x[0];
      SplitConcat(x[1..], y);
      JoinShift(Split(x[1..]), Split(y), x[0]);
    }
  }

  // Prepending a part, or a character to the first part, commutes with gluing b on.
  lemma JoinShift(a: seq<string>, b: seq<string>, c: char)
    requires a != [] && b != []
    ensures [""] + Glue(a, b) == Glue([""] + a, b)
    ensures [[c] + Glue(a, b)[0]] + Glue(a, b)[1..] == Glue([[c] + a[0]] + a[1..], b)
  {
    if |a| == 1 {
      assert [c] + (a[0] + b[0]) == [c] + a[0] + b[0];
    }
  }

  lemma SplitAtDot(x: string, y: string)
    ensures Split(x + "." + y) == Split(x) + Split(y)
  {
    var dot := "." + y;
    assert dot[1..] == y && dot[0] == '.';
    assert Split(dot) == [""] + Split(y);
    assert x + "." + y == x + dot;
    SplitConcat(x, dot);
    assert Split(x)[|Split(x)| - 1] + "" == Split(x)[|Split(x)| - 1];
  }

  // Some dots between x and y: the parts of x come first, then at least one more.
  lemma SplitAtDots(x: string, d: string, y: string)
    requires AllDots(d) && d != ""
    ensures Split(x) < Split(x + d + y)
  {
    var rest := d[1..] + y;
    assert d[0] == '.';
    assert x + d + y == x + "." + rest;
    SplitAtDot(x, rest);
  }

  // ---------- attaching an index ----------

  lemma EndsInDot(s: string, d: string)
    requires s == TrimRight(s) + d && AllDots(d)
    requires TrimRight(s) == "" || TrimRight(s)[|TrimRight(s)| - 1] != '.'
    ensures d != "" <==> s != "" && s[|s| - 1] == '.'
  {
    if d != "" {
      assert s[|s| - 1] == d[|d| - 1];
    } else {
      assert s == TrimRight(s);
    }
  }

  lemma StartsWithDot(s: string, d: string)
    requires s == d + TrimLeft(s) && AllDots(d)
    requires TrimLeft(s) == "" || TrimLeft(s)[0] != '.'
    ensures d != "" <==> s != "" && s[0] == '.'
  {
    if d != "" {
      assert s[0] == d[0];
    } else {
      assert s == TrimLeft(s);
    }
  }

  lemma Associate(a: string, b: string, c: string)
    ensures (a + b) + c == a + (b + c)
  {
  }

  lemma Regroup(x: string, e: string, f: string, y: string)
    ensures (x + e) + (f + y) == x + (e + f) + y
  {
    Associate(x + e, f, y);
    Associate(x, e, f);
  }

  lemma ConcatEmpty(s: string)
    ensures s + "" == s && "" + s == s
  {
  }

  lemma DropLast(x: string, e: string)
    requires e != ""
    ensures (x + e)[..|x + e| - 1] == x + e[..|e| - 1]
  {
  }

  // Between the base and the index there is at least one dot.
  lemma AddIndexForm(o: string, index: string) returns (d: string)
    ensures AllDots(d) && d != ""
    ensures AddIndex(o, index) == TrimRight(o) + d + TrimLeft(index)
  {
    var e := TrimRightSplits(o);
    var f := TrimLeftSplits(index);
    EndsInDot(o, e);
    StartsWithDot(index, f);
    if e == "" && f == "" {
      ConcatEmpty(TrimRight(o));
      ConcatEmpty(TrimLeft(index));
      d := ".";
    } else if e != "" && f != "" {
      DropLast(TrimRight(o), e);
      Regroup(TrimRight(o), e[..|e| - 1], f, TrimLeft(index));
      d := e[..|e| - 1] + f;
    } else {
      JoinOneDot(o, index);
      Regroup(TrimRight(o), e, f, TrimLeft(index));
      d := e + f;
    }
  }

  lemma TrimMiddle(x: string, d: string, y: string)
    requires !AllDots(x) && !AllDots(y)
    ensures Trim(x + d + y) == TrimLeft(x) + d + TrimRight(y)
  {
    TrimBoth(x);
    TrimBoth(y);
    Associate(x, d, y);
    TrimLeftStops(x, d + y);
    Associate(TrimLeft(x), d, y);
    TrimRightStops(TrimLeft(x) + d, y);
  }

  // The parts of the base are a proper prefix of the parts of the indexed OID.
  lemma AddIndexParts(o: string, index: string)
    requires !AllDots(o)
    ensures AllDots(index) ==> Parts(AddIndex(o, index)) == Parts(o)
    ensures !AllDots(index) ==> Parts(o) < Parts(AddIndex(o, index))
  {
    var d := AddIndexForm(o, index);
    var e := TrimRightSplits(o);
    var base := TrimRight(o);
    TrimBoth(o);
    TrimBoth(index);
    TrimBoth(base);
    BaseNotDots(o);
    TrimOfRight(o);
    if AllDots(index) {
      TrimOfRight(base + d);
      TrimRightDots(base, d);
      assert base + d + "" == base + d;
      TrimRightTwice(o);
    } else {
      var rest := TrimLeft(index);
      LeftNotDots(index);
      TrimMiddle(base, d, rest);
      SplitAtDots(TrimLeft(base), d, TrimRight(rest));
      TrimLeftOfRight(o);
    }
  }

  lemma BaseNotDots(s: string)
    requires !AllDots(s)
    ensures !AllDots(TrimRight(s))
  {
    TrimBoth(s);
    var e := TrimRightSplits(s);
  }

  lemma LeftNotDots(s: string)
    requires !AllDots(s)
    ensures !AllDots(TrimLeft(s))
  {
    TrimBoth(s);
    var d := TrimLeftSplits(s);
  }

  // The two trims commute on a string that is not all dots.
  lemma TrimLeftOfRight(s: string)
    requires !AllDots(s)
    ensures TrimLeft(TrimRight(s)) == Trim(s)
  {
    var e := TrimRightSplits(s);
    BaseNotDots(s);
    TrimBoth(TrimRight(s));
    TrimLeftStops(TrimRight(s), e);
    TrimRightDots(TrimLeft(TrimRight(s)), e);
    RightFixed(TrimRight(s));
  }

  lemma RightFixed(b: string)
    requires !AllDots(b) && b[|b| - 1] != '.'
    ensures TrimRight(TrimLeft(b)) == TrimLeft(b)
  {
    var d := TrimLeftSplits(b);
    TrimBoth(b);
    assert TrimLeft(b)[|TrimLeft(b)| - 1] == b[|b| - 1];
  }

  lemma TrimRightTwice(s: string)
    ensures TrimRight(TrimRight(s)) == TrimRight(s)
  {
    var e := TrimRightSplits(s);
  }

  lemma TrimOfRight(s: string)
    ensures Trim(TrimRight(s)) == Trim(s)
  {
    TrimBoth(s);
    if AllDots(s) {
      assert TrimRight(s) == "";
    } else {
      BaseNotDots(s);
      TrimLeftOfRight(s);
      TrimLeftOfRight(TrimRight(s));
      TrimRightTwice(s);
    }
  }

  lemma {:induction false} CmpPrefix(a: seq<string>, b: seq<string>, i: nat)
    requires i <= |a| && a <= b && forall j :: 0 <= j < |a| ==> Atoi(a[j]).Some?
    ensures CmpFrom(a, b, i) == Ordered(if |a| < |b| then -1 else 0)
    decreases |a| - i
  {
    if i < |a| {
      assert a[i] == b[i];
      CmpPrefix(a, b, i + 1);
    }
  }

  lemma DotsIllFormed(o: string)
    requires AllDots(o)
    ensures !WellFormed(o)
  {
    TrimBoth(o);
    assert Parts(o)[0] == "" && Atoi("").None?;
  }

  // A well-formed base precedes every OID made from it by AddIndex, whatever the index string,
  // and equals it if the index is nothing but dots.
  lemma BasePrecedesIndexed(o: string, index: string)
    requires WellFormed(o)
    ensures Cmp(o, AddIndex(o, index)) == Ordered(if AllDots(index) then 0 else -1)
  {
    if AllDots(o) {
      DotsIllFormed(o);
    }
    AddIndexParts(o, index);
    CmpPrefix(Parts(o), Parts(AddIndex(o, index)), 0);
  }

  // ---------- indices in order ----------

  predicate EndsInTwoDots(o: string) {
    |o| >= 2 && o[|o| - 1] == '.' && o[|o| - 2] == '.'
  }

  lemma {:induction false} NoDotSplit(s: string)
    requires forall i :: 0 <= i < |s| ==> s[i] != '.'
    ensures Split(s) == [s]
  {
    if s == "" {
    } else {
      NoDotSplit(s[1..]);
      assert s == [s[0]] + s[1..];
    }
  }

  lemma NoDotTrim(s: string)
    requires s != "" && forall i :: 0 <= i < |s| ==> s[i] != '.'
    ensures TrimLeft(s) == s && TrimRight(s) == s && !AllDots(s)
  {
  }

  // The dots at the end of o are more than one if and only if it ends in two.
  lemma TrailingDots(o: string, e: string)
    requires o == TrimRight(o) + e && AllDots(e) && !AllDots(o)
    requires TrimRight(o)[|TrimRight(o)| - 1] != '.' || TrimRight(o) == ""
    requires TrimRight(o) != ""
    ensures |e| >= 2 <==> EndsInTwoDots(o)
  {
    if |e| >= 2 {
      assert o[|o| - 1] == e[|e| - 1] && o[|o| - 2] == e[|e| - 2];
    } else if |e| == 1 {
      assert o[|o| - 2] == TrimRight(o)[|TrimRight(o)| - 1];
    } else {
      ConcatEmpty(TrimRight(o));
    }
  }

  // The dots that AddIndex leaves between a base and an index without dots.
  lemma DotsBefore(o: string, index: string) returns (d: string)
    requires !AllDots(o) && index != "" && forall i :: 0 <= i < |index| ==> index[i] != '.'
    ensures AllDots(d) && d != "" && (|d| >= 2 <==> EndsInTwoDots(o))
    ensures AddIndex(o, index) == TrimRight(o) + d + index
  {
    TrimBoth(o);
    var e := TrimRightSplits(o);
    EndsInDot(o, e);
    TrailingDots(o, e);
    if e == "" {
      ConcatEmpty(TrimRight(o));
      JoinNoDot(o, index);
      Associate(o, ".", index);
      d := ".";
    } else {
      JoinOneDot(o, index);
      d := e;
    }
  }

  // A second dot is an empty part, a single one leads to the index.
  lemma PartsAfterDots(x: string, d: string, index: string)
    requires AllDots(d) && d != "" && forall i :: 0 <= i < |index| ==> index[i] != '.'
    ensures |d| == 1 ==> Split(x + d + index) == Split(x) + [index]
    ensures |d| >= 2 ==> Split(x) < Split(x + d + index) && Split(x + d + index)[|Split(x)|] == ""
  {
    var rest := d[1..] + index;
    DotFirst(x, d, index);
    SplitAtDot(x, rest);
    if |d| == 1 {
      ConcatEmpty(index);
      NoDotSplit(index);
    } else {
      assert rest[0] == '.';
    }
  }

  lemma DotFirst(x: string, d: string, y: string)
    requires d != "" && d[0] == '.'
    ensures x + d + y == x + "." + (d[1..] + y)
  {
    assert d == "." + d[1..];
    Associate(x, d, y);
    Associate(".", d[1..], y);
    Associate(x, ".", d[1..] + y);
  }

  lemma IndexParts(o: string, index: string)
    requires !AllDots(o) && index != "" && forall i :: 0 <= i < |index| ==> index[i] != '.'
    ensures !EndsInTwoDots(o) ==> Parts(AddIndex(o, index)) == Parts(o) + [index]
    ensures EndsInTwoDots(o) ==>
      Parts(o) < Parts(AddIndex(o, index)) && Parts(AddIndex(o, index))[|Parts(o)|] == ""
  {
    var d := DotsBefore(o, index);
    NoDotTrim(index);
    BaseNotDots(o);
    TrimMiddle(TrimRight(o), d, index);
    TrimLeftOfRight(o);
    PartsAfterDots(Trim(o), d, index);
  }

  lemma {:induction false} CmpSkips(a: seq<string>, b: seq<string>, i: nat, k: nat)
    requires i <= k <= |a| && k <= |b| && a[..k] == b[..k]
    requires forall j :: 0 <= j < k ==> Atoi(a[j]).Some?
    ensures CmpFrom(a, b, i) == CmpFrom(a, b, k)
    decreases k - i
  {
    if i < k {
      assert a[i] == a[..k][i] == b[..k][i] == b[i];
      CmpSkips(a, b, i + 1, k);
    }
  }

  function Sign(x: int): int {
    if x < 0 then -1 else if x > 0 then 1 else 0
  }

  // Decimal indices of one well-formed base are ordered as the numbers they write, if and only if
  // the base does not end in two dots; then the comparison fails.
  lemma IndexOrder(o: string, m: nat, n: nat)
    requires WellFormed(o) && m < 0x8000_0000_0000_0000 && n < 0x8000_0000_0000_0000
    ensures Cmp(AddIndex(o, Decimal(m)), AddIndex(o, Decimal(n)))
            == if EndsInTwoDots(o) then BadReceiver else Ordered(Sign(m - n))
  {
    if AllDots(o) {
      DotsIllFormed(o);
    }
    DecimalAtoi(m);
    DecimalAtoi(n);
    IndexParts(o, Decimal(m));
    IndexParts(o, Decimal(n));
    var a, b, k := Parts(AddIndex(o, Decimal(m))), Parts(AddIndex(o, Decimal(n))), |Parts(o)|;
    assert a[..k] == Parts(o) == b[..k];
    assert forall j :: 0 <= j < k ==> a[j] == Parts(o)[j];
    CmpSkips(a, b, 0, k);
    if EndsInTwoDots(o) {
      assert Atoi(a[k]).None?;
    } else {
      CmpLast(a, b, k);
    }
  }

  lemma CmpLast(a: seq<string>, b: seq<string>, k: nat)
    requires |a| == |b| == k + 1 && Atoi(a[k]).Some? && Atoi(b[k]).Some?
    ensures CmpFrom(a, b, k) == Ordered(Sign(Atoi(a[k]).value - Atoi(b[k]).value))
  {
  }

  lemma DecimalAtoi(n: nat)
    requires n < INT64_LIMIT
    ensures Atoi(Decimal(n)) == Some(n)
  {
    assert "" + (Zeros(0) + Decimal(n)) == Decimal(n);
    AtoiOfWritten(Decimal(n), n, "", 0);
  }

  // The three ways AddIndex joins: a dot between, one dot there already, one of two dots dropped.
  lemma JoinNoDot(o: string, index: string)
    requires (o == "" || o[|o| - 1] != '.') && (index == "" || index[0] != '.')
    ensures AddIndex(o, index) == o + ("." + index)
  {
    assert o + "." + index == o + ("." + index);
  }

  lemma JoinOneDot(o: string, index: string)
    requires (o != "" && o[|o| - 1] == '.') != (index != "" && index[0] == '.')
    ensures AddIndex(o, index) == o + index
  {
  }

  lemma JoinBothDots(o: string, index: string)
    requires o != "" && o[|o| - 1] == '.' && index != "" && index[0] == '.'
    ensures AddIndex(o, index) == o + index[1..]
  {
    assert o == o[..|o| - 1] + ".";
    assert index == "." + index[1..];
  }

  lemma TrimPrefixConcat(o: string, rest: string)
    requires o != ""
    ensures TrimPrefixDot(o + rest) == TrimPrefixDot(o) + rest
  {
    assert (o + rest)[1..] == o[1..] + rest;
  }

  lemma IndexOfConcat(o: string, rest: string)
    ensures GetIndexAfterOID(o + rest, o) == Some(Trim(rest))
  {
    var b := TrimPrefixDot(o);
    if o == "" {
      assert o + rest == rest && TrimPrefixDot(rest)[0..] == TrimPrefixDot(rest);
      TrimDotFront(rest);
    } else {
      TrimPrefixConcat(o, rest);
      assert (b + rest)[|b|..] == rest;
    }
  }

  lemma TrimDotBefore(index: string)
    ensures Trim("." + index) == Trim(index)
  {
    TrimDotFront("." + index);
    assert ("." + index)[1..] == index;
  }

  // For all strings: the index comes back without its surrounding dots.
  lemma IndexRoundTrip(o: string, index: string)
    ensures GetIndexAfterOID(AddIndex(o, index), o) == Some(Trim(index))
  {
    var oDot := o != "" && o[|o| - 1] == '.';
    var iDot := index != "" && index[0] == '.';
    if oDot && iDot {
      JoinBothDots(o, index);
      IndexOfConcat(o, index[1..]);
      TrimDotFront(index);
    } else if oDot || iDot {
      JoinOneDot(o, index);
      IndexOfConcat(o, index);
    } else {
      JoinNoDot(o, index);
      IndexOfConcat(o, "." + index);
      TrimDotBefore(index);
    }
  }

  // One leading dot makes no difference to either argument.
  lemma LeadingDotIgnored(o: string, base: string)
    requires o == "" || o[0] != '.'
    requires base == "" || base[0] != '.'
    ensures GetIndexAfterOID("." + o, base) == GetIndexAfterOID(o, base)
    ensures GetIndexAfterOID(o, "." + base) == GetIndexAfterOID(o, base)
    ensures GetIndexAfterOID("." + o, "." + base) == GetIndexAfterOID(o, base)
  {
    assert ("." + o)[1..] == o && ("." + base)[1..] == base;
  }

  // ---------- component boundaries ----------

  // The components an OID names; none for a string of dots.
  function Components(o: string): seq<string> {
    if Trim(o) == "" then [] else Parts(o)
  }

  // The base string ends, or the rest starts, where a component does.
  predicate AtBoundary(o: string, base: string) {
    var o', b := TrimPrefixDot(o), TrimPrefixDot(base);
    b <= o' && (b == "" || b == o' || b[|b| - 1] == '.' || o'[|b|] == '.')
  }

  lemma {:induction false} HeadNotEmpty(s: string)
    requires s != "" && s[0] != '.'
    ensures Split(s)[0] != ""
  {
  }

  // "1.23" starts with "1.2", but is not below it.
  lemma StraddlingExample()
    ensures GetIndexAfterOID("1.23", "1.2") == Some("3") && !AtBoundary("1.23", "1.2")
  {
    assert "1.23"[..3] == "1.2" && "1.23"[3..] == "3";
    assert TrimPrefixDot("1.23") == "1.23" && TrimPrefixDot("1.2") == "1.2";
    assert TrimLeft("3") == "3" && TrimRight("3") == "3";
  }

  // Where GetIndexAfterOID succeeds, the base's components are a prefix of the OID's exactly if
  // the match ends at a component boundary.
  lemma SubtreeIff(o: string, base: string)
    requires GetIndexAfterOID(o, base).Some?
    ensures Components(base) <= Components(o) <==> AtBoundary(o, base)
  {
    var o', b := TrimPrefixDot(o), TrimPrefixDot(base);
    var rest := o'[|b|..];
    assert o' == b + rest;
    TrimDotFront(o);
    TrimDotFront(base);
    TrimBoth(b);
    TrimBoth(rest);
    if AllDots(b) {
      assert b != "" ==> b[|b| - 1] == '.';
    } else if AllDots(rest) {
      TrimOfRight(o');
      TrimRightDots(b, rest);
      TrimOfRight(b);
      assert rest != "" ==> rest[0] == '.';
    } else if AtBoundary(o, base) {
      Inside(b, rest);
    } else {
      Straddle(b, rest);
    }
  }

  // At a boundary the rest adds components.
  lemma Inside(b: string, rest: string)
    requires !AllDots(b) && !AllDots(rest) && (b[|b| - 1] == '.' || rest[0] == '.')
    ensures Trim(b + rest) != "" && Split(Trim(b)) < Split(Trim(b + rest))
  {
    var e := TrimRightSplits(b);
    var f := TrimLeftSplits(rest);
    var x, y := TrimRight(b), TrimLeft(rest);
    BaseNotDots(b);
    LeftNotDots(rest);
    assert b + rest == x + (e + f) + y;
    assert e + f != "" by {
      if e == "" {
        assert x == b;
      }
      if f == "" {
        assert y == rest;
      }
    }
    TrimMiddle(x, e + f, y);
    SplitAtDots(TrimLeft(x), e + f, TrimRight(y));
    TrimLeftOfRight(b);
    TrimBoth(x);
  }

  // Off a boundary the last component of the base runs on.
  lemma Straddle(b: string, rest: string)
    requires !AllDots(b) && !AllDots(rest) && b[|b| - 1] != '.' && rest[0] != '.'
    ensures Trim(b) != "" && !(Split(Trim(b)) <= Split(Trim(b + rest)))
  {
    TrimBoth(b);
    TrimBoth(rest);
    RightFixed(b);
    assert b + "" + rest == b + rest;
    TrimMiddle(b, "", rest);
    var x, y := TrimLeft(b), TrimRight(rest);
    assert x + "" + y == x + y;
    var e := TrimRightSplits(rest);
    assert y[0] == rest[0];
    HeadNotEmpty(y);
    SplitConcat(x, y);
    var k := |Split(x)| - 1;
    assert |Split(x + y)[k]| == |Split(x)[k]| + |Split(y)[0]|;
  }

  lemma {:induction false} SplitPrefix(x: string, y: string)
    requires Split(x) <= Split(y)
    ensures x <= y
  {
    if x == "" {
    } else {
      var a, b := Split(x), Split(y);
      assert a[0] == b[0];
      if x[0] == '.' {
        assert a[1..] == Split(x[1..]) && |b| >= 2;
        assert y != "" && y[0] == '.';
        assert b[1..] == Split(y[1..]);
        SplitPrefix(x[1..], y[1..]);
      } else {
        assert a[0][0] == x[0];
        assert y != "" && y[0] == x[0];
        var c, d := Split(x[1..]), Split(y[1..]);
        assert c[0] == a[0][1..] == b[0][1..] == d[0];
        assert c == [c[0]] + a[1..] && d == [d[0]] + b[1..];
        SplitPrefix(x[1..], y[1..]);
      }
    }
  }

  // At most one dot in front and none behind.
  predicate Canonical(o: string) {
    TrimPrefixDot(o) == Trim(o)
  }

  // On canonical OIDs, success at a boundary is exactly the subtree relation on components.
  lemma SubtreeExactly(o: string, base: string)
    requires Canonical(o) && Canonical(base)
    ensures GetIndexAfterOID(o, base).Some? && AtBoundary(o, base) <==> Components(base) <= Components(o)
  {
    if GetIndexAfterOID(o, base).Some? {
      SubtreeIff(o, base);
    } else if Components(base) <= Components(o) && Trim(base) != "" {
      SplitPrefix(Trim(base), Trim(o));
    }
  }
}
