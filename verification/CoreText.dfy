/** Access strings: the text form of a path, such as "0:1:2". */
module CoreText {
  import opened Errors
  import opened Options
  import opened CoreSpec

  // ---- Numbers in text

  predicate IsDigit(c: char) {
    '0' <= c <= '9'
  }

  predicate AllDigits(s: string) {
    forall i :: 0 <= i < |s| ==> IsDigit(s[i])
  }

  function Value(s: string): nat
    requires AllDigits(s)
  {
    if s == "" then 0 else Value(s[..|s| - 1]) * 10 + (s[|s| - 1] as int - '0' as int)
  }

  function Decimal(n: nat): (s: string)
    ensures s != "" && AllDigits(s) && Value(s) == n
  {
    var d := ('0' as int + n % 10) as char;
    if n < 10 then [d] else
      var t := Decimal(n / 10);
      assert (t + [d])[..|t|] == t;
      t + [d]
  }

  /** The length of the digits, or of the blanks, that a text begins with. */
  function DigitRun(s: string): (n: nat)
    ensures n <= |s| && AllDigits(s[..n])
  {
    if s == "" || !IsDigit(s[0]) then 0
    else
      var n := DigitRun(s[1..]);
      assert forall i :: 1 <= i < n + 1 ==> s[i] == s[1..][..n][i - 1];
      n + 1
  }

  function Blanks(s: string): (n: nat)
    ensures n <= |s|
  {
    if s == "" || s[0] !in {' ', '\t', '\n', '\r', 11 as char, 12 as char} then 0 else Blanks(s[1..]) + 1
  }

  datatype Scanned = Scanned(value: nat, len: nat)

  /** What the C library makes of the beginning of a text when asked for a decimal number, as long as
      there is no minus sign: the number and how much it has read. */
  function Scan(s: string): (r: Option<Scanned>)
    ensures r.Some? ==> 0 < r.value.len <= |s|
  {
    var w := Blanks(s);
    var p := if w < |s| && s[w] == '+' then w + 1 else w;
    var d := DigitRun(s[p..]);
    if d == 0 then None else Some(Scanned(Value(s[p..][..d]), p + d))
  }

  // ---- Paths in text

  datatype Indices = Read(ns: seq<nat>) | Bad(err: int)

  function Behind(n: nat, r: Indices): Indices {
    if r.Bad? then r else Read([n] + r.ns)
  }

  /** The indices in a text, when `count` have been read before it. */
  function ReadFrom(s: string, count: nat): Indices
    decreases |s|
  {
    if s == "" then Read([])
    else
      var t := if s[0] == ':' then s[1..] else s;
      match Scan(t)
      case None => Bad(EINVAL)
      case Some(r) => if count >= MAX_SPEC_LEN then Bad(E2BIG) else Behind(r.value, ReadFrom(t[r.len..], count + 1))
  }

  function ReadIndices(s: string): Indices {
    if s == "" || s[0] == ':' then Bad(EINVAL) else ReadFrom(s, 0)
  }

  /** The text that a compiler writes for a path. */
  function Spell(ns: seq<nat>): (s: string)
    ensures ns != [] ==> s != "" && IsDigit(s[0])
  {
    if ns == [] then "" else if |ns| == 1 then Decimal(ns[0]) else Decimal(ns[0]) + ":" + Spell(ns[1..])
  }

  lemma {:induction false} RunStops(ds: string, rest: string)
    requires AllDigits(ds) && (rest == "" || !IsDigit(rest[0]))
    ensures DigitRun(ds + rest) == |ds|
  {
    if ds != "" {
      RunStops(ds[1..], rest);
      assert (ds + rest)[1..] == ds[1..] + rest;
    } else {
      assert ds + rest == rest;
    }
  }

  lemma ScanDecimal(n: nat, rest: string)
    requires rest == "" || !IsDigit(rest[0])
    ensures Scan(Decimal(n) + rest) == Some(Scanned(n, |Decimal(n)|))
  {
    var ds := Decimal(n);
    RunStops(ds, rest);
    assert (ds + rest)[0] == ds[0] && (ds + rest)[0..] == ds + rest;
    assert (ds + rest)[..|ds|] == ds;
  }

  /** One number, with or without a colon before it. */
  lemma ReadNumber(n: nat, rest: string, count: nat)
    requires rest == "" || !IsDigit(rest[0])
    ensures ReadFrom(Decimal(n) + rest, count) == if count >= MAX_SPEC_LEN then Bad(E2BIG) else Behind(n, ReadFrom(rest, count + 1))
    ensures ReadFrom(":" + (Decimal(n) + rest), count) == ReadFrom(Decimal(n) + rest, count)
  {
    hide Scan, Decimal;
    var s := Decimal(n) + rest;
    ScanDecimal(n, rest);
    assert s[0] == Decimal(n)[0] && IsDigit(s[0]);
    assert s[|Decimal(n)|..] == rest;
    assert (":" + s)[1..] == s;
  }

  lemma SpellStep(ns: seq<nat>)
    requires ns != []
    ensures Spell(ns) == Decimal(ns[0]) + if |ns| == 1 then "" else ":" + Spell(ns[1..])
  {
    if |ns| == 1 { assert Decimal(ns[0]) + "" == Decimal(ns[0]); }
    else { assert Decimal(ns[0]) + ":" + Spell(ns[1..]) == Decimal(ns[0]) + (":" + Spell(ns[1..])); }
  }

  /** What a compiler writes is read back, unless it is too long. */
  lemma {:induction false} ReadsBack(ns: seq<nat>, count: nat)
    requires ns != [] && count <= MAX_SPEC_LEN
    ensures ReadFrom(Spell(ns), count) == if count + |ns| <= MAX_SPEC_LEN then Read(ns) else Bad(E2BIG)
    ensures ReadFrom(":" + Spell(ns), count) == ReadFrom(Spell(ns), count)
  {
    hide ReadFrom, Spell, Decimal;
    var rest := if |ns| == 1 then "" else ":" + Spell(ns[1..]);
    SpellStep(ns);
    ReadNumber(ns[0], rest, count);
    assert ns == [ns[0]] + ns[1..];
    if |ns| == 1 {
      ReadNothing(count + 1);
    } else if count < MAX_SPEC_LEN {
      ReadsBack(ns[1..], count + 1);
    }
  }

  lemma ReadNothing(count: nat)
    ensures ReadFrom("", count) == Read([])
  {
  }

  lemma ReadIndicesSpelled(ns: seq<nat>)
    ensures ReadIndices(Spell(ns)) ==
      if ns == [] then Bad(EINVAL) else if |ns| > MAX_SPEC_LEN then Bad(E2BIG) else Read(ns)
  {
    hide ReadFrom;
    if ns != [] { ReadsBack(ns, 0); }
  }

  /** The number in a text of digits: the last digit counts as itself, what is before it ten times. */
  lemma TwoDigits(c: char, d: char)
    requires IsDigit(c) && IsDigit(d)
    ensures Value([c, d]) == 10 * (c as int - '0' as int) + (d as int - '0' as int)
  {
    assert [c, d][..1] == [c] && [c][..0] == [];
    assert Value([c]) == c as int - '0' as int;
  }

  /** Reading in steps. */
  function After(ns: seq<nat>, r: Indices): Indices {
    if r.Bad? then r else Read(ns + r.ns)
  }

  lemma AfterStep(ns: seq<nat>, n: nat, r: Indices)
    ensures After(ns, Behind(n, r)) == After(ns + [n], r)
  {
    if r.Read? { assert ns + ([n] + r.ns) == ns + [n] + r.ns; }
  }
}
