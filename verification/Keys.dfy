/** The text keys under which versions are cached and identified. */
module Keys {

  function Digit(d: nat): char
    requires d < 10
  {
    "0123456789"[d]
  }

  function Decimal(n: nat): string {
    if n < 10 then [Digit(n)] else Decimal(n / 10) + [Digit(n % 10)]
  }

  function FormatInt(v: int): string {
    if v < 0 then "-" + Decimal(-v) else Decimal(v)
  }

  /** The part of a key that names the schema. */
  function Owner(nsName: string, schema: string): string {
    nsName + "-" + schema
  }

  function SchemaKey(nsName: string, schema: string, version: int): string {
    Owner(nsName, schema) + "-" + FormatInt(version)
  }

  /** The number a text of digits stands for. */
  function Value(digits: string): int {
    if digits == "" then 0 else Value(digits[..|digits| - 1]) * 10 + (digits[|digits| - 1] as int - '0' as int)
  }

  /** A number is formatted as decimal digits without leading zeros. */
  lemma {:induction false} DecimalIsDecimal(n: nat)
    ensures Value(Decimal(n)) == n
    ensures Decimal(n) != "" && forall c | c in Decimal(n) :: '0' <= c <= '9'
    ensures Decimal(n)[0] == '0' ==> Decimal(n) == "0"
  {
    DigitValue(n % 10);
    if n < 10 {
      assert Decimal(n)[..0] == "";
    } else {
      DecimalIsDecimal(n / 10);
      assert Decimal(n)[..|Decimal(n)| - 1] == Decimal(n / 10);
      assert Decimal(n / 10) != "0" by { assert Value("0") == 0 by { assert "0"[..0] == ""; } }
    }
  }

  lemma DigitValue(d: nat)
    requires d < 10
    ensures Digit(d) as int - '0' as int == d
  {
    var digits := "0123456789";
    assert digits[0] == '0' && digits[1] == '1' && digits[2] == '2' && digits[3] == '3' && digits[4] == '4'
        && digits[5] == '5' && digits[6] == '6' && digits[7] == '7' && digits[8] == '8' && digits[9] == '9';
  }

  /** A key is the namespace, the schema and the number, joined by dashes, the number with a dash before it
      if it is negative. */
  lemma SchemaKeyText(nsName: string, schema: string, version: int)
    ensures exists digits :: Value(digits) == (if version < 0 then -version else version)
              && (forall c | c in digits :: '0' <= c <= '9') && (digits != "0" ==> digits != "" && digits[0] != '0')
              && SchemaKey(nsName, schema, version)
                 == nsName + "-" + schema + "-" + (if version < 0 then "-" else "") + digits
  {
    var digits := Decimal(Magnitude(version));
    DecimalIsDecimal(Magnitude(version));
    if version < 0 {
      Concat4(nsName + "-" + schema, "-", "-", digits);
    } else {
      assert nsName + "-" + schema + "-" + "" + digits == nsName + "-" + schema + "-" + digits;
    }
  }

  lemma Concat4(a: string, b: string, c: string, d: string)
    ensures a + b + (c + d) == a + b + c + d
  {}

  lemma {:induction false} DecimalHasNoDash(n: nat)
    ensures Decimal(n) != [] && '-' !in Decimal(n)
  {
    if n >= 10 {
      DecimalHasNoDash(n / 10);
    }
  }

  lemma DigitsDiffer(a: nat, b: nat)
    requires a < 10 && b < 10 && Digit(a) == Digit(b)
    ensures a == b
  {
    assert "0123456789"[a] == "0123456789"[b];
  }

  lemma {:induction false} DecimalIsInjective(a: nat, b: nat)
    requires Decimal(a) == Decimal(b)
    ensures a == b
  {
    DecimalHasNoDash(a / 10);
    DecimalHasNoDash(b / 10);
    var da, db := Decimal(a), Decimal(b);
    assert da[|da| - 1] == db[|db| - 1];
    DigitsDiffer(a % 10, b % 10);
    if a >= 10 && b >= 10 {
      assert Decimal(a / 10) == da[..|da| - 1] == db[..|db| - 1] == Decimal(b / 10);
      DecimalIsInjective(a / 10, b / 10);
    }
  }

  /** The text before the last dash and the dash-free text after it are determined by the whole. */
  lemma SplitAtLastDash(x: string, d: string, y: string, e: string)
    requires '-' !in d && '-' !in e && x + "-" + d == y + "-" + e
    ensures x == y && d == e
  {
    var whole := x + "-" + d;
    assert whole[|x|] == '-' && whole[|y|] == '-';
    assert forall i | |x| < i < |whole| :: whole[i] == d[i - |x| - 1];
    assert forall i | |y| < i < |whole| :: whole[i] == e[i - |y| - 1];
    assert |x| == |y|;
    assert x == whole[..|x|] && y == whole[..|y|];
    assert d == whole[|x| + 1..] && e == whole[|y| + 1..];
  }

  /** What precedes the last dash of a key; the sign of a negative version number belongs to it. */
  function KeyOwner(nsName: string, schema: string, version: int): string {
    if version < 0 then Owner(nsName, schema) + "-" else Owner(nsName, schema)
  }

  function Magnitude(version: int): nat {
    if version < 0 then -version else version
  }

  lemma KeyParts(nsName: string, schema: string, version: int)
    ensures SchemaKey(nsName, schema, version) == KeyOwner(nsName, schema, version) + "-" + Decimal(Magnitude(version))
  {
    if version < 0 {
      var owner, digits := Owner(nsName, schema), Decimal(-version);
      assert owner + "-" + ("-" + digits) == owner + "-" + "-" + digits;
    }
  }

  /** Keys agree exactly when the magnitudes of the numbers and the texts before them do. */
  lemma KeysAgree(ns1: string, s1: string, v1: int, ns2: string, s2: string, v2: int)
    ensures SchemaKey(ns1, s1, v1) == SchemaKey(ns2, s2, v2) <==>
            Magnitude(v1) == Magnitude(v2) && KeyOwner(ns1, s1, v1) == KeyOwner(ns2, s2, v2)
  {
    KeyParts(ns1, s1, v1);
    KeyParts(ns2, s2, v2);
    DecimalHasNoDash(Magnitude(v1));
    DecimalHasNoDash(Magnitude(v2));
    if SchemaKey(ns1, s1, v1) == SchemaKey(ns2, s2, v2) {
      SplitAtLastDash(KeyOwner(ns1, s1, v1), Decimal(Magnitude(v1)), KeyOwner(ns2, s2, v2), Decimal(Magnitude(v2)));
      DecimalIsInjective(Magnitude(v1), Magnitude(v2));
    }
  }

  /** `longer` is `shorter`, a dash, and more. */
  predicate DashExtends(longer: string, shorter: string) {
    |shorter| < |longer| && longer[..|shorter| + 1] == shorter + "-"
  }

  lemma OwnersOfExtension(ns1: string, s1: string, ns2: string, s2: string)
    requires Owner(ns1, s1) == Owner(ns2, s2) && |ns1| <= |ns2|
    ensures (ns1 == ns2 && s1 == s2) || DashExtends(ns2, ns1)
  {
    var whole := Owner(ns1, s1);
    assert ns1 == whole[..|ns1|] && ns2 == whole[..|ns2|];
    if |ns1| == |ns2| {
      assert s1 == whole[|ns1| + 1..] && s2 == whole[|ns2| + 1..];
    } else {
      assert ns2[..|ns1| + 1] == whole[..|ns1| + 1] == ns1 + "-";
    }
  }

  /** Some pair of schema names in two distinct namespaces collides exactly when one namespace is the
      other followed by a dash. */
  lemma OwnersCollideExactly(ns1: string, ns2: string)
    requires ns1 != ns2
    ensures (exists s1, s2 :: Owner(ns1, s1) == Owner(ns2, s2)) <==> DashExtends(ns1, ns2) || DashExtends(ns2, ns1)
  {
    if s1, s2 :| Owner(ns1, s1) == Owner(ns2, s2) {
      if |ns1| <= |ns2| {
        OwnersOfExtension(ns1, s1, ns2, s2);
      } else {
        OwnersOfExtension(ns2, s2, ns1, s1);
      }
    }
    if DashExtends(ns1, ns2) {
      assert Owner(ns1, "x") == Owner(ns2, ns1[|ns2| + 1..] + "-x");
    }
    if DashExtends(ns2, ns1) {
      assert Owner(ns1, ns2[|ns1| + 1..] + "-x") == Owner(ns2, "x");
    }
  }

  /** No namespace is another one followed by a dash; dash-free names are a special case. */
  ghost predicate Unambiguous(namespaces: set<string>) {
    forall a, b | a in namespaces && b in namespaces :: !DashExtends(a, b)
  }

  lemma OwnerIsInjective(namespaces: set<string>, ns1: string, s1: string, ns2: string, s2: string)
    requires Unambiguous(namespaces) && ns1 in namespaces && ns2 in namespaces
    requires Owner(ns1, s1) == Owner(ns2, s2)
    ensures ns1 == ns2 && s1 == s2
  {
    if |ns1| <= |ns2| {
      OwnersOfExtension(ns1, s1, ns2, s2);
    } else {
      OwnersOfExtension(ns2, s2, ns1, s1);
    }
  }

  /** A negative number of one schema has the key of a positive number of the schema whose name ends in
      one dash more. */
  predicate NegativeMeets(s1: string, v1: int, s2: string, v2: int) {
    v1 < 0 && v2 == -v1 && s2 == s1 + "-"
  }

  lemma PaddedOwner(nsName: string, schema: string)
    ensures Owner(nsName, schema) + "-" == Owner(nsName, schema + "-")
  {}

  /** With unambiguous namespaces, two keys agree exactly when they are of the same version, or of a
      negative number and its counterpart. */
  lemma SchemaKeysAgreeExactly(namespaces: set<string>, ns1: string, s1: string, v1: int, ns2: string, s2: string,
                               v2: int)
    requires Unambiguous(namespaces) && ns1 in namespaces && ns2 in namespaces
    ensures SchemaKey(ns1, s1, v1) == SchemaKey(ns2, s2, v2) <==>
            ns1 == ns2 && ((s1 == s2 && v1 == v2) || NegativeMeets(s1, v1, s2, v2) || NegativeMeets(s2, v2, s1, v1))
  {
    KeysAgree(ns1, s1, v1, ns2, s2, v2);
    PaddedOwner(ns1, s1);
    PaddedOwner(ns2, s2);
    var t1 := if v1 < 0 then s1 + "-" else s1;
    var t2 := if v2 < 0 then s2 + "-" else s2;
    if Owner(ns1, t1) == Owner(ns2, t2) {
      OwnerIsInjective(namespaces, ns1, t1, ns2, t2);
      SameBeforeDash(s1, s2);
    }
  }

  lemma SameBeforeDash(s: string, t: string)
    ensures s + "-" == t + "-" <==> s == t
  {
    if s + "-" == t + "-" {
      assert s == (s + "-")[..|s|] && t == (t + "-")[..|t|];
    }
  }

  /** Hence a cache key names one version among schema names without a dash at the end, and among all
      names for numbers that are not negative. */
  lemma SchemaKeyIsInjective(namespaces: set<string>, ns1: string, s1: string, v1: int, ns2: string, s2: string,
                             v2: int)
    requires Unambiguous(namespaces) && ns1 in namespaces && ns2 in namespaces
    requires (v1 >= 0 && v2 >= 0) || (!EndsInDash(s1) && !EndsInDash(s2))
    requires SchemaKey(ns1, s1, v1) == SchemaKey(ns2, s2, v2)
    ensures ns1 == ns2 && s1 == s2 && v1 == v2
  {
    SchemaKeysAgreeExactly(namespaces, ns1, s1, v1, ns2, s2, v2);
  }

  predicate EndsInDash(s: string) {
    s != "" && s[|s| - 1] == '-'
  }

  /** Dash-free namespaces do not help: number -1 of schema `s` and number 1 of schema `s-`. */
  lemma NegativeNumberCollides()
    ensures Unambiguous({"n"}) && SchemaKey("n", "s", -1) == SchemaKey("n", "s-", 1)
  {
    DashFreeIsUnambiguous({"n"});
    PaddedOwner("n", "s");
    assert "s" + "-" == "s-";
    KeysAgree("n", "s", -1, "n", "s-", 1);
  }

  lemma DashFreeIsUnambiguous(namespaces: set<string>)
    requires forall ns | ns in namespaces :: '-' !in ns
    ensures Unambiguous(namespaces)
  {
    forall a, b | a in namespaces && b in namespaces ensures !DashExtends(a, b) {
      if |b| < |a| {
        assert a[|b|] != '-';
        assert (b + "-")[|b|] == '-' && a[..|b| + 1][|b|] == a[|b|];
      }
    }
  }
}
