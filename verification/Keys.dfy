/** Dedupe keys of the alert ledger: how they are printed, and why equal keys mean the same alert. */
module Keys {

  datatype Kind = SiteDown | SiteRecovered | SslExpiring

  /** The key's first field. */
  function Prefix(kind: Kind): (s: string) {
    match kind
    case SiteDown => "down"
    case SiteRecovered => "up"
    case SslExpiring => "ssl"
  }

  const DIGITS := "0123456789"

  /** `%d` for a non-negative number. */
  function Decimal(n: nat): (s: string) {
    if n < 10 then [DIGITS[n]] else Decimal(n / 10) + [DIGITS[n % 10]]
  }

  /** `%d` for any number. */
  function PrintInt(n: int): (s: string) {
    if n < 0 then "-" + Decimal(-n) else Decimal(n)
  }

  /** The key `render` gives an alert: kind, site, incident (or expiry) number, channel. */
  function DedupeKey(kind: Kind, site: string, number: int, channel: int): (s: string) {
    Prefix(kind) + ":" + (site + ":" + PrintInt(number) + ":" + PrintInt(channel))
  }

  // --- reading a number back ---

  function DigitValue(c: char): (d: int) { c as int - '0' as int }

  function ReadDecimal(s: string): (n: int) {
    if s == [] then 0 else ReadDecimal(s[..|s| - 1]) * 10 + DigitValue(s[|s| - 1])
  }

  function ReadInt(s: string): (n: int) {
    if s != [] && s[0] == '-' then -ReadDecimal(s[1..]) else ReadDecimal(s)
  }

  lemma {:induction false} DecimalRoundTrip(n: nat)
    ensures Decimal(n) != [] && (forall c | c in Decimal(n) :: '0' <= c <= '9')
    ensures ReadDecimal(Decimal(n)) == n
  {
    if n < 10 {
      assert Decimal(n)[..0] == [];
    } else {
      DecimalRoundTrip(n / 10);
      assert Decimal(n)[..|Decimal(n)| - 1] == Decimal(n / 10);
    }
  }

  /** No number but 0 starts with a zero. */
  lemma {:induction false} NoLeadingZero(n: nat)
    ensures Decimal(n) != [] && (Decimal(n)[0] == '0' ==> n == 0 && Decimal(n) == "0")
  {
    if n >= 10 {
      NoLeadingZero(n / 10);
      assert Decimal(n)[0] == Decimal(n / 10)[0];
    } else {
      assert forall i | 0 < i < 10 :: DIGITS[i] != '0';
    }
  }

  /** Printing a number loses nothing and never prints the separator. */
  lemma PrintIntRoundTrip(n: int)
    ensures ReadInt(PrintInt(n)) == n && ':' !in PrintInt(n)
  {
    DecimalRoundTrip(if n < 0 then -n else n);
    if n < 0 {
      assert PrintInt(n)[1..] == Decimal(-n);
    } else {
      assert PrintInt(n)[0] in Decimal(n);
    }
  }

  // --- splitting at a separator ---

  lemma SplitFirst(a: string, b: string, a': string, b': string)
    requires a + ":" + b == a' + ":" + b'
    requires ':' !in a && ':' !in a'
    ensures a == a' && b == b'
  {
    var s := a + ":" + b;
    assert s[|a|] == ':' && s[|a'|] == ':';
    assert forall i | 0 <= i < |a| :: s[i] == a[i] && a[i] in a;
    assert forall i | 0 <= i < |a'| :: s[i] == a'[i] && a'[i] in a';
    assert |a| == |a'|;
    assert s[..|a|] == a && s[..|a'|] == a';
    assert s[|a| + 1..] == b && s[|a'| + 1..] == b';
  }

  lemma SplitLast(a: string, b: string, a': string, b': string)
    requires a + ":" + b == a' + ":" + b'
    requires ':' !in b && ':' !in b'
    ensures a == a' && b == b'
  {
    var s := a + ":" + b;
    assert s[|a|] == ':' && s[|a'|] == ':';
    assert forall i | |a| < i < |s| :: s[i] == b[i - |a| - 1] && b[i - |a| - 1] in b;
    assert forall i | |a'| < i < |s| :: s[i] == b'[i - |a'| - 1] && b'[i - |a'| - 1] in b';
    assert |a| == |a'|;
    assert s[..|a|] == a && s[..|a'|] == a';
    assert s[|a| + 1..] == b && s[|a'| + 1..] == b';
  }

  /** The texts of the keys, as they stand in the ledger. */
  lemma {:induction false} KeyTexts(s: string)
    ensures DedupeKey(SiteDown, s, 0, 12) == "down:" + s + ":0:12"
    ensures DedupeKey(SiteRecovered, s, 7, 12) == "up:" + s + ":7:12"
    ensures DedupeKey(SslExpiring, s, 907, -3) == "ssl:" + s + ":907:-3"
  {
    assert PrintInt(12) == "12" && PrintInt(0) == "0" && PrintInt(7) == "7" && PrintInt(-3) == "-3";
    assert Decimal(90) == "90" && Decimal(907) == Decimal(90) + "7";
    assert "down" + ":" + (s + ":" + "0" + ":" + "12") == "down:" + s + ":0:12";
    assert "up" + ":" + (s + ":" + "7" + ":" + "12") == "up:" + s + ":7:12";
    assert "ssl" + ":" + (s + ":" + "907" + ":" + "-3") == "ssl:" + s + ":907:-3";
  }

  /** Equal keys mean the same alert, for every site id (slug or not) and all numbers. */
  lemma KeyInjective(k: Kind, s: string, n: int, c: int, k': Kind, s': string, n': int, c': int)
    requires DedupeKey(k, s, n, c) == DedupeKey(k', s', n', c')
    ensures k == k' && s == s' && n == n' && c == c'
  {
    PrintIntRoundTrip(n); PrintIntRoundTrip(n');
    PrintIntRoundTrip(c); PrintIntRoundTrip(c');
    SplitFirst(Prefix(k), s + ":" + PrintInt(n) + ":" + PrintInt(c),
               Prefix(k'), s' + ":" + PrintInt(n') + ":" + PrintInt(c'));
    SplitLast(s + ":" + PrintInt(n), PrintInt(c), s' + ":" + PrintInt(n'), PrintInt(c'));
    SplitLast(s, PrintInt(n), s', PrintInt(n'));
  }
}
