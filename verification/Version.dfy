// A Redmine release number, `MAJOR.MINOR.PATCH`: parsing and printing.
module Version {
  import opened Prelude

  datatype RedmineVersion = RedmineVersion(major: nat, minor: nat, patch: nat) {
    predicate FitsU32() { major <= U32_MAX && minor <= U32_MAX && patch <= U32_MAX }
  }

  predicate IsDigit(c: char) { '0' <= c <= '9' }

  predicate AllDigits(s: string) { forall i :: 0 <= i < |s| ==> IsDigit(s[i]) }

  function Digit(c: char): nat
    requires IsDigit(c)
  {
    (c - '0') as int
  }

  function DigitChar(d: nat): (c: char)
    requires d < 10
    ensures IsDigit(c) && Digit(c) == d
  {
    '0' + d as char
  }

  // The number a string of digits stands for.
  function Value(s: string): nat
    requires AllDigits(s)
  {
    if s == "" then 0 else 10 * Value(s[..|s| - 1]) + Digit(s[|s| - 1])
  }

  /* ---------- The code ---------- */

  // `str::split('.')`
  function Split(s: string): (parts: seq<string>)
    ensures parts != [] && (forall p :: p in parts ==> '.' !in p)
  {
    if s == "" then [""]
    else
      var rest := Split(s[1..]);
      if s[0] == '.' then [""] + rest else [[s[0]] + rest[0]] + rest[1..]
  }

  // Digits only, at least one, and within `u32`.
  function ParsePart(s: string): Option<nat> {
    if s != "" && AllDigits(s) && Value(s) <= U32_MAX then Some(Value(s)) else None
  }

  function FromStr(s: string): Option<RedmineVersion> {
    var parts := Split(s);
    if |parts| != 3 then None
    else
      match (ParsePart(parts[0]), ParsePart(parts[1]), ParsePart(parts[2]))
      case (Some(major), Some(minor), Some(patch)) => Some(RedmineVersion(major, minor, patch))
      case _ => None
  }

  function Decimal(n: nat): (s: string)
    ensures s != "" && AllDigits(s)
  {
    if n < 10 then [DigitChar(n)] else Decimal(n / 10) + [DigitChar(n % 10)]
  }

  function Display(v: RedmineVersion): string {
    Decimal(v.major) + "." + Decimal(v.minor) + "." + Decimal(v.patch)
  }

  /* ---------- Splitting and joining ---------- */

  function Join(parts: seq<string>): string
    requires parts != []
  {
    if |parts| == 1 then parts[0] else parts[0] + "." + Join(parts[1..])
  }

  lemma {:induction false} JoinSplit(s: string)
    ensures Join(Split(s)) == s
  {
    if s != "" {
      var rest := Split(s[1..]);
      JoinSplit(s[1..]);
      assert s == [s[0]] + s[1..];
      if s[0] == '.' {
        assert ([""] + rest)[1..] == rest;
      } else {
        assert ([[s[0]] + rest[0]] + rest[1..])[1..] == rest[1..];
      }
    }
  }

  lemma {:induction false} SplitPlain(a: string)
    requires '.' !in a
    ensures Split(a) == [a]
  {
    if a != "" {
      assert a[0] in a && forall c :: c in a[1..] ==> c in a;
      SplitPlain(a[1..]);
      assert a == [a[0]] + a[1..];
    }
  }

  lemma {:induction false} SplitJoin(a: string, b: string)
    requires '.' !in a
    ensures Split(a + "." + b) == [a] + Split(b)
  {
    var s := a + "." + b;
    if a == "" {
      assert s[0] == '.' && s[1..] == b;
    } else {
      assert a[0] in a && forall c :: c in a[1..] ==> c in a;
      SplitJoin(a[1..], b);
      assert s[0] == a[0] && s[1..] == a[1..] + "." + b;
      assert a == [a[0]] + a[1..];
    }
  }

  /* ---------- Numbers ---------- */

  lemma {:induction false} ValueDecimal(n: nat)
    ensures Value(Decimal(n)) == n
    decreases n
  {
    if n >= 10 {
      ValueDecimal(n / 10);
      var s := Decimal(n);
      assert s[..|s| - 1] == Decimal(n / 10);
    } else {
      assert Decimal(n)[..0] == "";
    }
  }

  function DropLeadingZeros(s: string): string {
    if |s| > 1 && s[0] == '0' then DropLeadingZeros(s[1..]) else s
  }

  lemma {:induction false} LeadingZeroIsWorthless(s: string)
    requires s != "" && AllDigits(s) && s[0] == '0'
    ensures Value(s) == Value(s[1..])
  {
    if |s| > 1 {
      var init := s[..|s| - 1];
      LeadingZeroIsWorthless(init);
      assert init[1..] == s[1..][..|s[1..]| - 1];
    } else {
      assert s[..0] == "";
    }
  }

  lemma {:induction false} ValuePositive(s: string)
    requires s != "" && AllDigits(s) && s[0] != '0'
    ensures Value(s) > 0
  {
    if |s| > 1 { ValuePositive(s[..|s| - 1]); }
  }

  // Printing a parsed number gives the digits back, without leading zeros.
  lemma {:induction false} DecimalValue(s: string)
    requires s != "" && AllDigits(s)
    ensures Decimal(Value(s)) == DropLeadingZeros(s)
    decreases |s|
  {
    if |s| == 1 {
      assert s[..0] == "";
      assert s == [s[0]];
    } else if s[0] == '0' {
      LeadingZeroIsWorthless(s);
      DecimalValue(s[1..]);
    } else {
      var init := s[..|s| - 1];
      ValuePositive(init);
      DecimalValue(init);
      assert Value(s) / 10 == Value(init) && Value(s) % 10 == Digit(s[|s| - 1]);
      assert s == init + [s[|s| - 1]];
    }
  }

  lemma NoDots(s: string)
    requires AllDigits(s)
    ensures '.' !in s
  {}

  /* ---------- Round trips ---------- */

  // Parsing a printed version gives the version back exactly when its parts fit 32 bits.
  lemma ParseOfPrint(v: RedmineVersion)
    ensures FromStr(Display(v)) == Some(v) <==> v.FitsU32()
    ensures !v.FitsU32() ==> FromStr(Display(v)) == None
  {
    var a, b, c := Decimal(v.major), Decimal(v.minor), Decimal(v.patch);
    NoDots(a);
    NoDots(b);
    NoDots(c);
    SplitPlain(c);
    SplitJoin(b, c);
    SplitJoin(a, b + "." + c);
    assert Display(v) == a + "." + (b + "." + c);
    assert Split(Display(v)) == [a, b, c];
    ValueDecimal(v.major);
    ValueDecimal(v.minor);
    ValueDecimal(v.patch);
  }

  ghost predicate IsNumber(s: string) {
    s != "" && AllDigits(s) && Value(s) <= U32_MAX
  }

  // Exactly the dotted triples of 32-bit digit strings are accepted.
  lemma AcceptsExactly(s: string)
    ensures FromStr(s).Some? <==>
            exists a, b, c :: IsNumber(a) && IsNumber(b) && IsNumber(c) && s == a + "." + (b + "." + c)
  {
    if FromStr(s).Some? {
      PrintOfParse(s);
      var p := Split(s);
      assert IsNumber(p[0]) && IsNumber(p[1]) && IsNumber(p[2]) && s == p[0] + "." + (p[1] + "." + p[2]);
    }
    if a, b, c :| IsNumber(a) && IsNumber(b) && IsNumber(c) && s == a + "." + (b + "." + c) {
      NoDots(a);
      NoDots(b);
      NoDots(c);
      SplitPlain(c);
      SplitJoin(b, c);
      SplitJoin(a, b + "." + c);
      assert Split(s) == [a, b, c];
    }
  }

  // Printing the parse of an accepted string gives it back with the leading zeros of each part dropped.
  lemma PrintOfParse(s: string)
    ensures var v := FromStr(s);
            v.Some? ==>
              && v.value.FitsU32()
              && |Split(s)| == 3
              && s == Split(s)[0] + "." + Split(s)[1] + "." + Split(s)[2]
              && Display(v.value) == DropLeadingZeros(Split(s)[0]) + "." + DropLeadingZeros(Split(s)[1]) + "."
                                     + DropLeadingZeros(Split(s)[2])
  {
    if FromStr(s).Some? {
      var parts := Split(s);
      JoinSplit(s);
      assert Join(parts[1..]) == parts[1] + "." + Join(parts[1..][1..]);
      assert parts[1..][1..] == [parts[2]];
      assert s == parts[0] + "." + (parts[1] + "." + parts[2]);
      DecimalValue(parts[0]);
      DecimalValue(parts[1]);
      DecimalValue(parts[2]);
    }
  }

  // Two strings parse to the same version exactly when they differ in leading zeros only.
  lemma SameVersionIffSameCanonicalForm(s: string, t: string)
    requires FromStr(s).Some? && FromStr(t).Some?
    ensures FromStr(s) == FromStr(t) <==>
            && DropLeadingZeros(Split(s)[0]) == DropLeadingZeros(Split(t)[0])
            && DropLeadingZeros(Split(s)[1]) == DropLeadingZeros(Split(t)[1])
            && DropLeadingZeros(Split(s)[2]) == DropLeadingZeros(Split(t)[2])
  {
    SameNumber(Split(s)[0], Split(t)[0]);
    SameNumber(Split(s)[1], Split(t)[1]);
    SameNumber(Split(s)[2], Split(t)[2]);
  }

  lemma SameNumber(a: string, b: string)
    requires a != "" && b != "" && AllDigits(a) && AllDigits(b)
    ensures Value(a) == Value(b) <==> DropLeadingZeros(a) == DropLeadingZeros(b)
  {
    DecimalValue(a);
    DecimalValue(b);
    ValueDecimal(Value(a));
    ValueDecimal(Value(b));
  }
}
