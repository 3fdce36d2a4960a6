/** Comparing version strings. */
module VersionCompare {
  import opened Numerals
  import opened Ordering
  import opened Text

  // ---------------------------------------------------------------- parsing

  /** `str.lower`, of which nothing is assumed in general. */
  type Lowering = string -> string

  /** `s.replace("v", "")`. */
  function RemoveV(s: string): string {
    if s == [] then [] else (if s[0] == 'v' then [] else [s[0]]) + RemoveV(s[1..])
  }

  predicate IsIdentifierChar(c: char) {
    IsDigit(c) || 'A' <= c <= 'Z' || 'a' <= c <= 'z' || c == '-'
  }

  predicate Digits(s: string) {
    s != [] && forall i :: 0 <= i < |s| ==> IsDigit(s[i])
  }

  predicate IdentifierChars(s: string) {
    s != [] && forall i :: 0 <= i < |s| ==> IsIdentifierChar(s[i])
  }

  predicate Build(s: string) {
    s != [] && '\n' !in s
  }

  /** `s.split(".")`. */
  function SplitDots(s: string): (groups: seq<string>)
    ensures groups != []
  {
    if s == [] then [""]
    else
      var rest := SplitDots(s[1..]);
      if s[0] == '.' then [""] + rest else [[s[0]] + rest[0]] + rest[1..]
  }

  /** `s.find(c)`, or the length. */
  function IndexOf(s: string, c: char): (i: nat)
    ensures i <= |s|
  {
    if s == [] || s[0] == c then 0 else 1 + IndexOf(s[1..], c)
  }

  /** Groups 1 and 2 of the regular expression. */
  datatype Groups = Groups(core: string, pre: Option<string>)

  predicate AllDigits(groups: seq<string>) {
    forall i :: 0 <= i < |groups| ==> Digits(groups[i])
  }

  predicate AllIdentifiers(groups: seq<string>) {
    forall i :: 0 <= i < |groups| ==> IdentifierChars(groups[i])
  }

  /** `$` also matches before a final newline. */
  function Line(s: string): string {
    if s != [] && s[|s| - 1] == '\n' then s[..|s| - 1] else s
  }

  function Optional(mark: char, s: Option<string>): string {
    if s.Some? then [mark] + s.value else ""
  }

  /** Cuts at the first mark. */
  function CutAt(s: string, mark: char): (string, Option<string>) {
    var i := IndexOf(s, mark);
    (s[..i], if i < |s| then Some(s[i + 1..]) else None)
  }

  function Cut(line: string): (Groups, Option<string>) {
    var (head, build) := CutAt(line, '+');
    var (core, pre) := CutAt(head, '-');
    (Groups(core, pre), build)
  }

  predicate WellFormed(groups: Groups, build: Option<string>) {
    && AllDigits(SplitDots(groups.core))
    && (groups.pre.Some? ==> AllIdentifiers(SplitDots(groups.pre.value)))
    && (build.Some? ==> Build(build.value))
  }

  /** `re.match` of the version expression. */
  function Match(s: string): Option<Groups> {
    var (groups, build) := Cut(Line(s));
    if WellFormed(groups, build) then Some(groups) else None
  }

  datatype Identifier = Number(n: nat) | Word(s: string)

  datatype Version = Version(numbers: seq<nat>, pre: Option<seq<Identifier>>)

  function ToNats(groups: seq<string>): seq<nat>
    requires AllDigits(groups)
  {
    seq(|groups|, i requires 0 <= i < |groups| => ToNat(groups[i]))
  }

  function ToIdentifier(part: string): Identifier {
    if Digits(part) then Number(ToNat(part)) else Word(part)
  }

  function ToIdentifiers(parts: seq<string>): seq<Identifier> {
    seq(|parts|, i requires 0 <= i < |parts| => ToIdentifier(parts[i]))
  }

  function SplitPre(pre: Option<string>): Option<seq<Identifier>> {
    if pre.None? || pre.value == "" then None else Some(ToIdentifiers(SplitDots(pre.value)))
  }

  method SplitPrerelease(prerelease: Option<string>) returns (result: Option<seq<Identifier>>)
    ensures result == SplitPre(prerelease)
  {
    if prerelease.None? || prerelease.value == "" {
      return None;
    }
    var parts := SplitDots(prerelease.value);
    var identifiers: seq<Identifier> := [];
    for i := 0 to |parts|
      invariant identifiers == ToIdentifiers(parts[..i])
    {
      if Digits(parts[i]) {
        identifiers := identifiers + [Number(ToNat(parts[i]))];
      } else {
        identifiers := identifiers + [Word(parts[i])];
      }
    }
    assert parts[..|parts|] == parts;
    return Some(identifiers);
  }

  /** `split_version`: what does not match counts as no numbers at all. */
  function Parse(s: string): Version {
    match Match(s)
    case None => Version([], None)
    case Some(groups) => Version(ToNats(SplitDots(groups.core)), SplitPre(groups.pre))
  }

  method SplitVersion(version: string) returns (parts: seq<nat>, prerelease: Option<seq<Identifier>>)
    ensures Version(parts, prerelease) == Parse(version)
  {
    var m := Match(version);
    if m.None? {
      return [], None;
    }
    parts := ToNats(SplitDots(m.value.core));
    prerelease := SplitPrerelease(m.value.pre);
  }

  // ---------------------------------------------------------------- comparing

  function CompareNat(x: nat, y: nat): int {
    if x > y then 1 else if x < y then -1 else 0
  }

  function CompareIdentifier(p: Identifier, q: Identifier): int {
    match (p, q)
    case (Number(_), Word(_)) => -1
    case (Word(_), Number(_)) => 1
    case (Number(m), Number(n)) => CompareNat(m, n)
    case (Word(s), Word(t)) => CompareString(s, t)
  }

  function Max(x: nat, y: nat): nat {
    if x > y then x else y
  }

  function Padded(numbers: seq<nat>, length: nat): seq<nat>
    requires |numbers| <= length
  {
    numbers + seq(length - |numbers|, _ => 0)
  }

  function CompareNumbers(a: seq<nat>, b: seq<nat>): int {
    var length := Max(|a|, |b|);
    CompareSeq(Padded(a, length), Padded(b, length), CompareNat)
  }

  function ComparePre(p: Option<seq<Identifier>>, q: Option<seq<Identifier>>): int {
    match (p, q)
    case (None, None) => 0
    case (None, Some(_)) => 1
    case (Some(_), None) => -1
    case (Some(a), Some(b)) => CompareSeq(a, b, CompareIdentifier)
  }

  function CompareParsed(a: Version, b: Version): int {
    var c := CompareNumbers(a.numbers, b.numbers);
    if c != 0 then c else ComparePre(a.pre, b.pre)
  }

  function Normalise(lower: Lowering, v: string): string {
    RemoveV(lower(v))
  }

  function Compare(lower: Lowering, v1: string, v2: string): int {
    CompareParsed(Parse(Normalise(lower, v1)), Parse(Normalise(lower, v2)))
  }

  method CompareVersion(lower: Lowering, v1: string, v2: string) returns (r: int)
    ensures r == Compare(lower, v1, v2)
  {
    var parts1, pre1 := SplitVersion(Normalise(lower, v1));
    var parts2, pre2 := SplitVersion(Normalise(lower, v2));
    var length := Max(|parts1|, |parts2|);
    parts1, parts2 := Padded(parts1, length), Padded(parts2, length);
    r := CompareParts(parts1, parts2);
    if r != 0 {
      return;
    }
    if pre1.None? && pre2.Some? {
      return 1;
    }
    if pre1.Some? && pre2.None? {
      return -1;
    }
    if pre1.Some? && pre2.Some? {
      r := ComparePrereleases(pre1.value, pre2.value);
      return;
    }
    return 0;
  }

  method CompareParts(a: seq<nat>, b: seq<nat>) returns (r: int)
    requires |a| == |b|
    ensures r == CompareSeq(a, b, CompareNat)
  {
    for i := 0 to |a|
      invariant CompareSeq(a, b, CompareNat) == CompareSeq(a[i..], b[i..], CompareNat)
    {
      assert a[i..][1..] == a[i + 1..] && b[i..][1..] == b[i + 1..];
      if a[i] > b[i] {
        return 1;
      }
      if a[i] < b[i] {
        return -1;
      }
    }
    return 0;
  }

  method ComparePrereleases(p: seq<Identifier>, q: seq<Identifier>) returns (r: int)
    ensures r == CompareSeq(p, q, CompareIdentifier)
  {
    for i := 0 to Max(|p|, |q|)
      invariant i <= |p| && i <= |q|
      invariant CompareSeq(p, q, CompareIdentifier) == CompareSeq(p[i..], q[i..], CompareIdentifier)
    {
      if i >= |p| {
        return -1;
      }
      if i >= |q| {
        return 1;
      }
      assert p[i..][1..] == p[i + 1..] && q[i..][1..] == q[i + 1..];
      var p1, p2 := p[i], q[i];
      if p1.Number? && p2.Word? {
        return -1;
      }
      if p1.Word? && p2.Number? {
        return 1;
      }
      if p1.Number? && p2.Number? {
        if p1.n > p2.n {
          return 1;
        }
        if p1.n < p2.n {
          return -1;
        }
      } else if p1.Word? && p2.Word? {
        StringRange(p1.s, p2.s);
        if CompareString(p1.s, p2.s) > 0 {
          return 1;
        }
        if CompareString(p1.s, p2.s) < 0 {
          return -1;
        }
      }
    }
    return 0;
  }

  // ---------------------------------------------------------------- a total preorder

  lemma IdentifiersLinear()
    ensures Linear(CompareNat) && Linear(CompareChar) && Linear(CompareIdentifier)
  {
    forall p, q
      ensures CompareIdentifier(p, q) == -CompareIdentifier(q, p) && (CompareIdentifier(p, q) == 0 <==> p == q)
    {
      if p.Word? && q.Word? {
        SeqAntisymmetric(p.s, q.s, CompareChar);
      }
    }
    forall p, q, r | CompareIdentifier(p, q) < 0 && CompareIdentifier(q, r) < 0 ensures CompareIdentifier(p, r) < 0 {
      if p.Word? && q.Word? && r.Word? {
        SeqTransitive(p.s, q.s, r.s, CompareChar);
        SeqAntisymmetric(p.s, r.s, CompareChar);
        SeqAntisymmetric(p.s, q.s, CompareChar);
      }
    }
  }

  lemma {:induction false} SeqAppend<T>(a: seq<T>, b: seq<T>, t: seq<T>, u: seq<T>, cmp: (T, T) -> int)
    requires |a| == |b|
    ensures var c := CompareSeq(a, b, cmp);
            CompareSeq(a + t, b + u, cmp) == if c != 0 then c else CompareSeq(t, u, cmp)
  {
    if |a| == 0 {
      assert a + t == t && b + u == u;
    } else {
      assert (a + t)[1..] == a[1..] + t && (b + u)[1..] == b[1..] + u;
      SeqAppend(a[1..], b[1..], t, u, cmp);
    }
  }

  /** Padding further changes nothing. */
  lemma PadMore(a: seq<nat>, b: seq<nat>, length: nat)
    requires |a| <= length && |b| <= length
    ensures CompareNumbers(a, b) == CompareSeq(Padded(a, length), Padded(b, length), CompareNat)
  {
    var n := Max(|a|, |b|);
    var zeros: seq<nat> := seq(length - n, _ => 0);
    assert Padded(a, length) == Padded(a, n) + zeros && Padded(b, length) == Padded(b, n) + zeros;
    SeqAppend(Padded(a, n), Padded(b, n), zeros, zeros, CompareNat);
    IdentifiersLinear();
    SeqAntisymmetric(zeros, zeros, CompareNat);
  }

  lemma NumbersAntisymmetric(a: seq<nat>, b: seq<nat>)
    ensures CompareNumbers(a, b) == -CompareNumbers(b, a)
    ensures CompareNumbers(a, b) == 0 <==> Padded(a, Max(|a|, |b|)) == Padded(b, Max(|a|, |b|))
  {
    IdentifiersLinear();
    SeqAntisymmetric(Padded(a, Max(|a|, |b|)), Padded(b, Max(|a|, |b|)), CompareNat);
  }

  lemma NumbersTransitive(a: seq<nat>, b: seq<nat>, c: seq<nat>)
    requires CompareNumbers(a, b) <= 0 && CompareNumbers(b, c) <= 0
    ensures CompareNumbers(a, c) <= 0
    ensures CompareNumbers(a, c) == 0 ==> CompareNumbers(a, b) == 0 && CompareNumbers(b, c) == 0
  {
    var n := Max(|a|, Max(|b|, |c|));
    PadMore(a, b, n);
    PadMore(b, c, n);
    PadMore(a, c, n);
    IdentifiersLinear();
    var x, y, z := Padded(a, n), Padded(b, n), Padded(c, n);
    SeqTransitive(x, y, z, CompareNat);
    SeqAntisymmetric(x, z, CompareNat);
    SeqAntisymmetric(x, y, CompareNat);
    SeqAntisymmetric(y, z, CompareNat);
  }

  lemma PreLinear()
    ensures Linear(ComparePre)
  {
    IdentifiersLinear();
    forall p: Option<seq<Identifier>>, q: Option<seq<Identifier>>
      ensures ComparePre(p, q) == -ComparePre(q, p) && (ComparePre(p, q) == 0 <==> p == q)
    {
      if p.Some? && q.Some? {
        SeqAntisymmetric(p.value, q.value, CompareIdentifier);
      }
    }
    forall p: Option<seq<Identifier>>, q: Option<seq<Identifier>>, r: Option<seq<Identifier>>
      | ComparePre(p, q) < 0 && ComparePre(q, r) < 0
      ensures ComparePre(p, r) < 0
    {
      if p.Some? && q.Some? && r.Some? {
        SeqTransitive(p.value, q.value, r.value, CompareIdentifier);
        SeqAntisymmetric(p.value, r.value, CompareIdentifier);
        SeqAntisymmetric(p.value, q.value, CompareIdentifier);
      }
    }
  }

  /** The comparison is reflexive and antisymmetric in its arguments, on all strings. */
  lemma CompareAntisymmetric(lower: Lowering, a: string, b: string)
    ensures Compare(lower, a, a) == 0
    ensures Compare(lower, a, b) == -Compare(lower, b, a)
  {
    ParsedAntisymmetric(Parse(Normalise(lower, a)), Parse(Normalise(lower, b)));
  }

  lemma ParsedAntisymmetric(x: Version, y: Version)
    ensures CompareParsed(x, x) == 0 && CompareParsed(x, y) == -CompareParsed(y, x)
  {
    NumbersAntisymmetric(x.numbers, x.numbers);
    NumbersAntisymmetric(x.numbers, y.numbers);
    PreLinear();
    assert ComparePre(x.pre, x.pre) == 0;
    assert ComparePre(x.pre, y.pre) == -ComparePre(y.pre, x.pre);
  }

  /** The comparison is transitive on all strings, and equal only through equals. */
  lemma CompareTransitive(lower: Lowering, a: string, b: string, c: string)
    requires Compare(lower, a, b) <= 0 && Compare(lower, b, c) <= 0
    ensures Compare(lower, a, c) <= 0
    ensures Compare(lower, a, c) == 0 ==> Compare(lower, a, b) == 0 && Compare(lower, b, c) == 0
  {
    ParsedTransitive(Parse(Normalise(lower, a)), Parse(Normalise(lower, b)), Parse(Normalise(lower, c)));
  }

  lemma ParsedTransitive(x: Version, y: Version, z: Version)
    requires CompareParsed(x, y) <= 0 && CompareParsed(y, z) <= 0
    ensures CompareParsed(x, z) <= 0
    ensures CompareParsed(x, z) == 0 ==> CompareParsed(x, y) == 0 && CompareParsed(y, z) == 0
  {
    NumbersTransitive(x.numbers, y.numbers, z.numbers);
    PreLinear();
    assert ComparePre(x.pre, y.pre) == 0 <==> x.pre == y.pre;
    assert ComparePre(y.pre, z.pre) == 0 <==> y.pre == z.pre;
    assert ComparePre(x.pre, z.pre) == 0 <==> x.pre == z.pre;
    assert ComparePre(x.pre, z.pre) == -ComparePre(z.pre, x.pre);
  }

  function TrimZeros(numbers: seq<nat>): seq<nat> {
    if numbers != [] && numbers[|numbers| - 1] == 0 then TrimZeros(numbers[..|numbers| - 1]) else numbers
  }

  lemma {:induction false} TrimIsPrefix(numbers: seq<nat>)
    ensures var t := TrimZeros(numbers);
            && |t| <= |numbers| && numbers == Padded(t, |numbers|)
            && (t != [] ==> t[|t| - 1] != 0)
  {
    if numbers != [] && numbers[|numbers| - 1] == 0 {
      TrimIsPrefix(numbers[..|numbers| - 1]);
    }
  }

  lemma PaddedEqualIff(a: seq<nat>, b: seq<nat>, length: nat)
    requires |a| <= length && |b| <= length
    ensures Padded(a, length) == Padded(b, length) <==> TrimZeros(a) == TrimZeros(b)
  {
    TrimIsPrefix(a);
    TrimIsPrefix(b);
    var t, u := TrimZeros(a), TrimZeros(b);
    PaddedTwice(t, |a|, length);
    PaddedTwice(u, |b|, length);
    if Padded(t, length) == Padded(u, length) {
      TrimmedNotLonger(t, u, length);
      TrimmedNotLonger(u, t, length);
      assert t == Padded(t, length)[..|t|] && u == Padded(u, length)[..|t|];
    }
  }

  lemma PaddedTwice(t: seq<nat>, n: nat, length: nat)
    requires |t| <= n <= length
    ensures Padded(Padded(t, n), length) == Padded(t, length)
  {
  }

  lemma TrimmedNotLonger(t: seq<nat>, u: seq<nat>, length: nat)
    requires |t| <= length && |u| <= length && Padded(t, length) == Padded(u, length)
    requires t != [] ==> t[|t| - 1] != 0
    ensures |t| <= |u|
  {
    assert t != [] ==> Padded(t, length)[|t| - 1] != 0;
  }

  /** Two strings compare equal exactly when their numbers agree up to trailing zeros and their
      pre-release identifiers are the same. */
  lemma CompareZeroIff(lower: Lowering, a: string, b: string)
    ensures var x, y := Parse(Normalise(lower, a)), Parse(Normalise(lower, b));
            Compare(lower, a, b) == 0 <==> TrimZeros(x.numbers) == TrimZeros(y.numbers) && x.pre == y.pre
  {
    ParsedZeroIff(Parse(Normalise(lower, a)), Parse(Normalise(lower, b)));
  }

  lemma ParsedZeroIff(x: Version, y: Version)
    ensures CompareParsed(x, y) == 0 <==> TrimZeros(x.numbers) == TrimZeros(y.numbers) && x.pre == y.pre
  {
    NumbersAntisymmetric(x.numbers, y.numbers);
    PaddedEqualIff(x.numbers, y.numbers, Max(|x.numbers|, |y.numbers|));
    PreLinear();
    assert ComparePre(x.pre, y.pre) == 0 <==> x.pre == y.pre;
  }

  // ---------------------------------------------------------------- Semantic Versioning, section 11

  /** Numeric identifiers compare numerically and are lower than others, which compare in ASCII
      order. */
  ghost predicate IdentifierBefore(p: Identifier, q: Identifier) {
    match p
    case Number(m) => q.Number? ==> m < q.n
    case Word(s) => q.Word? && Before(s, q.s, (c: char, d: char) => c < d)
  }

  /** Precedence of section 11 on parsed versions: numbers first, from left to right; then a version
      without pre-release is higher; then the identifiers from left to right, a longer list being
      higher. */
  ghost predicate ParsedPrecedes(a: Version, b: Version) {
    var n := Max(|a.numbers|, |b.numbers|);
    if Padded(a.numbers, n) != Padded(b.numbers, n) then
      Before(Padded(a.numbers, n), Padded(b.numbers, n), (m: nat, n: nat) => m < n)
    else a.pre.Some? && (b.pre.Some? ==> Before(a.pre.value, b.pre.value, IdentifierBefore))
  }

  ghost predicate SameVersion(a: Version, b: Version) {
    var n := Max(|a.numbers|, |b.numbers|);
    Padded(a.numbers, n) == Padded(b.numbers, n) && a.pre == b.pre
  }

  // The same on the texts, without reading any number.

  ghost predicate SamePart(p: string, q: string) {
    if Digits(p) && Digits(q) then SameNumeral(p, q) else p == q
  }

  ghost predicate PartBefore(p: string, q: string) {
    if Digits(p) then (Digits(q) ==> NumeralBefore(p, q))
    else !Digits(q) && Before(p, q, (c: char, d: char) => c < d)
  }

  ghost predicate SameAll<T>(a: seq<T>, b: seq<T>, same: (T, T) -> bool) {
    |a| == |b| && forall i :: 0 <= i < |a| ==> same(a[i], b[i])
  }

  ghost predicate DiffersAt<T>(a: seq<T>, b: seq<T>, same: (T, T) -> bool, less: (T, T) -> bool, k: nat) {
    && k <= |a| && k < |b| && (forall i :: 0 <= i < k ==> same(a[i], b[i]))
    && (k < |a| ==> less(a[k], b[k]))
  }

  ghost predicate BeforeBy<T>(a: seq<T>, b: seq<T>, same: (T, T) -> bool, less: (T, T) -> bool) {
    exists k :: DiffersAt(a, b, same, less, k)
  }

  ghost function Filled(groups: seq<string>, n: nat): seq<string>
    requires |groups| <= n
  {
    groups + seq(n - |groups|, _ => ['0'])
  }

  /** Precedence of section 11, on the texts of two versions; a missing number counts as 0, so that
      versions may have any number of them. */
  ghost predicate Precedes(a: string, b: string)
    requires Match(a).Some? && Match(b).Some?
  {
    var x, y := Match(a).value, Match(b).value;
    var count := Max(|SplitDots(x.core)|, |SplitDots(y.core)|);
    var m, n := Filled(SplitDots(x.core), count), Filled(SplitDots(y.core), count);
    if SameAll(m, n, SameNumeral) then
      x.pre.Some? && (y.pre.Some? ==> BeforeBy(SplitDots(x.pre.value), SplitDots(y.pre.value), SamePart, PartBefore))
    else BeforeBy(m, n, SameNumeral, NumeralBefore)
  }

  lemma IdentifierOrder()
    ensures SameOrder(CompareIdentifier, IdentifierBefore)
  {
    IdentifiersLinear();
    forall p, q ensures IdentifierBefore(p, q) <==> CompareIdentifier(p, q) < 0 {
      if p.Word? && q.Word? {
        BeforeIff(p.s, q.s, CompareChar, (c: char, d: char) => c < d);
      }
    }
  }

  lemma ParsedFollowsSemver(x: Version, y: Version)
    ensures CompareParsed(x, y) < 0 <==> ParsedPrecedes(x, y)
    ensures CompareParsed(x, y) == 0 <==> SameVersion(x, y)
  {
    var n := Max(|x.numbers|, |y.numbers|);
    IdentifiersLinear();
    PreLinear();
    NumbersAntisymmetric(x.numbers, y.numbers);
    BeforeIff(Padded(x.numbers, n), Padded(y.numbers, n), CompareNat, (m: nat, n: nat) => m < n);
    assert ComparePre(x.pre, y.pre) == 0 <==> x.pre == y.pre;
    if x.pre.Some? && y.pre.Some? {
      IdentifierOrder();
      BeforeIff(x.pre.value, y.pre.value, CompareIdentifier, IdentifierBefore);
    }
  }

  /** The code orders the two versions as section 11 does. */
  ghost predicate OrderedRight(lower: Lowering, a: string, b: string)
    requires Match(a).Some? && Match(b).Some?
  {
    && (Compare(lower, a, b) < 0 <==> Precedes(a, b))
    && (Compare(lower, a, b) > 0 <==> Precedes(b, a))
  }

  // ---------------------------------------------------------------- the numbers are those of the texts

  lemma PartOrder(p: string, q: string)
    ensures ToIdentifier(p) == ToIdentifier(q) <==> SamePart(p, q)
    ensures IdentifierBefore(ToIdentifier(p), ToIdentifier(q)) <==> PartBefore(p, q)
  {
    if Digits(p) && Digits(q) {
      NumeralOrder(p, q);
    }
  }

  lemma NumbersOfTexts(m: seq<string>, n: seq<string>)
    requires AllDigits(m) && AllDigits(n)
    ensures ToNats(m) == ToNats(n) <==> SameAll(m, n, SameNumeral)
    ensures Before(ToNats(m), ToNats(n), (x: nat, y: nat) => x < y) <==> BeforeBy(m, n, SameNumeral, NumeralBefore)
  {
    var x, y, less := ToNats(m), ToNats(n), (x: nat, y: nat) => x < y;
    forall i | 0 <= i < |m| && i < |n|
      ensures (x[i] == y[i] <==> SameNumeral(m[i], n[i])) && (less(x[i], y[i]) <==> NumeralBefore(m[i], n[i]))
    {
      assert Digits(m[i]) && Digits(n[i]);
      NumeralOrder(m[i], n[i]);
    }
    forall k: nat ensures FirstDifference(x, y, less, k) <==> DiffersAt(m, n, SameNumeral, NumeralBefore, k) {
      if k <= |m| && k <= |n| {
        assert x[..k] == y[..k] <==> forall i :: 0 <= i < k ==> x[i] == y[i] by { SamePrefix(x, y, k); }
      }
    }
  }

  lemma SamePrefix<T>(a: seq<T>, b: seq<T>, k: nat)
    requires k <= |a| && k <= |b|
    ensures a[..k] == b[..k] <==> forall i :: 0 <= i < k ==> a[i] == b[i]
  {
    if a[..k] == b[..k] {
      forall i | 0 <= i < k ensures a[i] == b[i] {
        assert a[..k][i] == b[..k][i];
      }
    }
  }

  lemma IdentifiersOfTexts(m: seq<string>, n: seq<string>)
    ensures Before(ToIdentifiers(m), ToIdentifiers(n), IdentifierBefore) <==> BeforeBy(m, n, SamePart, PartBefore)
  {
    var x, y := ToIdentifiers(m), ToIdentifiers(n);
    forall i | 0 <= i < |m| && i < |n|
      ensures x[i] == y[i] <==> SamePart(m[i], n[i])
      ensures IdentifierBefore(x[i], y[i]) <==> PartBefore(m[i], n[i])
    {
      PartOrder(m[i], n[i]);
    }
    forall k: nat
      ensures FirstDifference(x, y, IdentifierBefore, k) <==> DiffersAt(m, n, SamePart, PartBefore, k)
    {
      if k <= |m| && k <= |n| {
        SamePrefix(x, y, k);
      }
    }
  }

  lemma FilledNumbers(groups: seq<string>, n: nat)
    requires AllDigits(groups) && |groups| <= n
    ensures AllDigits(Filled(groups, n)) && ToNats(Filled(groups, n)) == Padded(ToNats(groups), n)
  {
    assert ['0'][..0] == [] && ToNat(['0']) == 0;
    forall i | 0 <= i < n ensures Digits(Filled(groups, n)[i]) {
      assert i < |groups| ==> Digits(groups[i]);
    }
  }

  lemma PrecedesParsed(a: string, b: string)
    requires Match(a).Some? && Match(b).Some?
    ensures Precedes(a, b) <==> ParsedPrecedes(Parse(a), Parse(b))
  {
    var x, y := Match(a).value, Match(b).value;
    var m, n := SplitDots(x.core), SplitDots(y.core);
    FilledNumbers(m, Max(|m|, |n|));
    FilledNumbers(n, Max(|m|, |n|));
    NumbersOfTexts(Filled(m, Max(|m|, |n|)), Filled(n, Max(|m|, |n|)));
    if x.pre.Some? {
      PreNotEmpty(x.pre.value);
    }
    if y.pre.Some? {
      PreNotEmpty(y.pre.value);
    }
    if x.pre.Some? && y.pre.Some? {
      IdentifiersOfTexts(SplitDots(x.pre.value), SplitDots(y.pre.value));
    }
  }

  /** The parsed comparison is the precedence of the texts. */
  lemma ParsedOrdersTexts(a: string, b: string)
    requires Match(a).Some? && Match(b).Some?
    ensures CompareParsed(Parse(a), Parse(b)) < 0 <==> Precedes(a, b)
    ensures CompareParsed(Parse(a), Parse(b)) > 0 <==> Precedes(b, a)
    ensures CompareParsed(Parse(a), Parse(b)) == 0 <==> SameVersion(Parse(a), Parse(b))
  {
    ParsedFollowsSemver(Parse(a), Parse(b));
    ParsedFollowsSemver(Parse(b), Parse(a));
    ParsedAntisymmetric(Parse(a), Parse(b));
    PrecedesParsed(a, b);
    PrecedesParsed(b, a);
  }

  lemma EqualParsed(x: Version, p: Version, y: Version)
    requires CompareParsed(x, p) == 0
    ensures CompareParsed(x, y) < 0 <==> CompareParsed(p, y) < 0
    ensures CompareParsed(x, y) > 0 <==> CompareParsed(p, y) > 0
  {
    ParsedAntisymmetric(x, p);
    ParsedAntisymmetric(x, y);
    ParsedAntisymmetric(p, y);
    if CompareParsed(x, y) <= 0 {
      ParsedTransitive(p, x, y);
    }
    if CompareParsed(p, y) <= 0 {
      ParsedTransitive(x, p, y);
    }
    if CompareParsed(x, y) >= 0 {
      ParsedTransitive(y, x, p);
    }
    if CompareParsed(p, y) >= 0 {
      ParsedTransitive(y, p, x);
    }
  }

  lemma {:induction false} NormaliseFixed(s: string)
    ensures 'v' !in s ==> RemoveV(s) == s
    ensures 'v' !in RemoveV(s)
  {
    if s != [] {
      NormaliseFixed(s[1..]);
      assert s == [s[0]] + s[1..];
    }
  }

  /** Whatever does not match compares like version 0. */
  lemma UnmatchedIsZero(lower: Lowering, a: string, b: string)
    requires Match(Normalise(lower, a)).None?
    ensures Compare(lower, a, b) == CompareParsed(Version([0], None), Parse(Normalise(lower, b)))
  {
    var y := Parse(Normalise(lower, b)).numbers;
    var zero: seq<nat> := [0];
    assert Padded([], Max(1, |y|)) == Padded(zero, Max(1, |y|));
    PadMore([], y, Max(1, |y|));
    PadMore(zero, y, Max(1, |y|));
  }

  // ---------------------------------------------------------------- the regular expression

  function Join(groups: seq<string>): string
    requires groups != []
  {
    if |groups| == 1 then groups[0] else groups[0] + "." + Join(groups[1..])
  }

  /** One or more groups joined by dots. */
  ghost predicate Dotted(s: string, group: string -> bool) {
    exists groups :: groups != [] && (forall i :: 0 <= i < |groups| ==> group(groups[i])) && s == Join(groups)
  }

  /** The language of the expression, with its groups. */
  ghost predicate InLanguage(s: string, groups: Groups, build: Option<string>, newline: bool) {
    && s == groups.core + Optional('-', groups.pre) + Optional('+', build) + (if newline then "\n" else "")
    && Dotted(groups.core, Digits)
    && (groups.pre.Some? ==> Dotted(groups.pre.value, IdentifierChars))
    && (build.Some? ==> Build(build.value))
  }

  lemma {:induction false} JoinSplit(s: string)
    ensures Join(SplitDots(s)) == s
  {
    if s != [] {
      var rest := SplitDots(s[1..]);
      JoinSplit(s[1..]);
      if s[0] == '.' {
        assert ([""] + rest)[1..] == rest;
      } else {
        assert ([[s[0]] + rest[0]] + rest[1..])[1..] == rest[1..];
      }
      assert s == [s[0]] + s[1..];
    }
  }

  lemma SplitCons(c: char, s: string)
    ensures var rest := SplitDots(s);
            SplitDots([c] + s) == if c == '.' then [""] + rest else [[c] + rest[0]] + rest[1..]
  {
    assert ([c] + s)[1..] == s;
  }

  lemma {:induction false} SplitJoin(groups: seq<string>)
    requires groups != [] && forall i :: 0 <= i < |groups| ==> '.' !in groups[i]
    ensures SplitDots(Join(groups)) == groups
    decreases |groups|, |groups[0]|
  {
    var first, rest := groups[0], groups[1..];
    if first != [] {
      var shorter := [first[1..]] + rest;
      assert shorter[1..] == rest;
      SplitJoin(shorter);
      assert Join(groups) == [first[0]] + Join(shorter);
      SplitCons(first[0], Join(shorter));
      assert first == [first[0]] + first[1..] && groups == [first] + rest;
    } else if rest == [] {
      assert groups == [""];
    } else {
      SplitJoin(rest);
      assert Join(groups) == ['.'] + Join(rest);
      SplitCons('.', Join(rest));
      assert groups == [""] + rest;
    }
  }

  lemma {:induction false} JoinChars(groups: seq<string>)
    requires groups != [] && AllIdentifiers(groups)
    ensures Join(groups) != []
    ensures forall i :: 0 <= i < |Join(groups)| ==> IsIdentifierChar(Join(groups)[i]) || Join(groups)[i] == '.'
  {
    if |groups| > 1 {
      assert IdentifierChars(groups[0]);
      JoinChars(groups[1..]);
    }
  }

  lemma {:induction false} JoinDigits(groups: seq<string>)
    requires groups != [] && AllDigits(groups)
    ensures AllIdentifiers(groups)
    ensures forall i :: 0 <= i < |Join(groups)| ==> Join(groups)[i] == '.' || IsDigit(Join(groups)[i])
  {
    assert Digits(groups[0]);
    if |groups| > 1 {
      JoinDigits(groups[1..]);
      assert groups == [groups[0]] + groups[1..];
    }
  }

  /** The code's test of the numbers, and the characters that cannot occur in them. */
  lemma DottedDigits(s: string)
    ensures Dotted(s, Digits) <==> AllDigits(SplitDots(s))
    ensures AllDigits(SplitDots(s)) ==> AllIdentifiers(SplitDots(s)) && '-' !in s
  {
    JoinSplit(s);
    if Dotted(s, Digits) {
      var groups :| groups != [] && AllDigits(groups) && s == Join(groups);
      NoDots(groups);
      SplitJoin(groups);
    }
    if AllDigits(SplitDots(s)) {
      JoinDigits(SplitDots(s));
      DottedByGroups(s, SplitDots(s), Digits);
    }
  }

  /** The same for the pre-release part. */
  lemma DottedIdentifiers(s: string)
    ensures Dotted(s, IdentifierChars) <==> AllIdentifiers(SplitDots(s))
    ensures AllIdentifiers(SplitDots(s)) ==> s != [] && '+' !in s && '\n' !in s
  {
    JoinSplit(s);
    if Dotted(s, IdentifierChars) {
      var groups :| groups != [] && AllIdentifiers(groups) && s == Join(groups);
      NoDots(groups);
      SplitJoin(groups);
    }
    if AllIdentifiers(SplitDots(s)) {
      JoinChars(SplitDots(s));
      DottedByGroups(s, SplitDots(s), IdentifierChars);
    }
  }

  lemma NoDots(groups: seq<string>)
    requires AllDigits(groups) || AllIdentifiers(groups)
    ensures forall i :: 0 <= i < |groups| ==> '.' !in groups[i]
  {
    forall i | 0 <= i < |groups| ensures '.' !in groups[i] {
      assert Digits(groups[i]) || IdentifierChars(groups[i]);
    }
  }

  lemma DottedByGroups(s: string, groups: seq<string>, group: string -> bool)
    requires groups != [] && (forall i :: 0 <= i < |groups| ==> group(groups[i])) && s == Join(groups)
    ensures Dotted(s, group)
  {
  }

  lemma {:induction false} IndexOfAppend(a: string, b: string, c: char)
    requires c !in a && (b != [] ==> b[0] == c)
    ensures IndexOf(a + b, c) == |a|
  {
    if a == [] {
      assert a + b == b;
    } else {
      assert (a + b)[1..] == a[1..] + b;
      IndexOfAppend(a[1..], b, c);
    }
  }

  lemma CutAtJoined(s: string, mark: char, rest: Option<string>)
    requires mark !in s
    ensures CutAt(s + Optional(mark, rest), mark) == (s, rest)
  {
    IndexOfAppend(s, Optional(mark, rest), mark);
    var whole := s + Optional(mark, rest);
    assert whole[..|s|] == s;
    assert rest.Some? ==> whole[|s| + 1..] == rest.value;
  }

  /** Cutting undoes the concatenation of parts that keep to their characters. */
  lemma CutJoined(groups: Groups, build: Option<string>)
    requires '+' !in groups.core && '-' !in groups.core && (groups.pre.Some? ==> '+' !in groups.pre.value)
    ensures Cut(groups.core + Optional('-', groups.pre) + Optional('+', build)) == (groups, build)
  {
    CutAtJoined(groups.core + Optional('-', groups.pre), '+', build);
    CutAtJoined(groups.core, '-', groups.pre);
  }

  lemma JoinedCut(line: string)
    ensures var (groups, build) := Cut(line);
            line == groups.core + Optional('-', groups.pre) + Optional('+', build)
  {
    JoinedCutAt(line, '+');
    JoinedCutAt(CutAt(line, '+').0, '-');
  }

  lemma JoinedCutAt(s: string, mark: char)
    ensures s == CutAt(s, mark).0 + Optional(mark, CutAt(s, mark).1)
  {
    IndexOfFinds(s, mark);
  }

  lemma {:induction false} IndexOfFinds(s: string, c: char)
    ensures IndexOf(s, c) < |s| ==> s[IndexOf(s, c)] == c
  {
    if s != [] && s[0] != c {
      IndexOfFinds(s[1..], c);
    }
  }

  /** The parser accepts exactly the language of the expression, with the same groups. */
  lemma MatchExact(s: string, groups: Groups)
    ensures Match(s) == Some(groups) <==> exists build, newline :: InLanguage(s, groups, build, newline)
  {
    if Match(s) == Some(groups) {
      var build, newline := MatchInLanguage(s);
    }
    if exists build, newline :: InLanguage(s, groups, build, newline) {
      var build, newline :| InLanguage(s, groups, build, newline);
      LanguageMatches(s, groups, build, newline);
    }
  }

  lemma MatchInLanguage(s: string) returns (build: Option<string>, newline: bool)
    requires Match(s).Some?
    ensures InLanguage(s, Match(s).value, build, newline)
  {
    var groups := Match(s).value;
    newline := s != [] && s[|s| - 1] == '\n';
    build := Cut(Line(s)).1;
    JoinedCut(Line(s));
    WellFormedDotted(groups, build);
    LineEnd(s);
  }

  lemma WellFormedDotted(groups: Groups, build: Option<string>)
    requires WellFormed(groups, build)
    ensures Dotted(groups.core, Digits)
    ensures groups.pre.Some? ==> Dotted(groups.pre.value, IdentifierChars)
  {
    DottedDigits(groups.core);
    if groups.pre.Some? {
      DottedIdentifiers(groups.pre.value);
    }
  }

  lemma LineEnd(s: string)
    ensures s == Line(s) + (if s != [] && s[|s| - 1] == '\n' then "\n" else "")
  {
  }

  lemma LanguageMatches(s: string, groups: Groups, build: Option<string>, newline: bool)
    requires InLanguage(s, groups, build, newline)
    ensures Match(s) == Some(groups)
  {
    DottedWellFormed(groups, build);
    LineOf(groups.core + Optional('-', groups.pre) + Optional('+', build), newline);
    CutJoined(groups, build);
  }

  lemma DottedWellFormed(groups: Groups, build: Option<string>)
    requires Dotted(groups.core, Digits) && (groups.pre.Some? ==> Dotted(groups.pre.value, IdentifierChars))
    requires build.Some? ==> Build(build.value)
    ensures WellFormed(groups, build)
    ensures '+' !in groups.core && '-' !in groups.core && (groups.pre.Some? ==> '+' !in groups.pre.value)
    ensures '\n' !in groups.core + Optional('-', groups.pre) + Optional('+', build)
  {
    DottedDigits(groups.core);
    DottedIdentifiers(groups.core);
    if groups.pre.Some? {
      DottedIdentifiers(groups.pre.value);
    }
  }

  lemma LineOf(line: string, newline: bool)
    requires '\n' !in line
    ensures Line(line + (if newline then "\n" else "")) == line
  {
    if newline {
      assert (line + "\n")[..|line|] == line;
    } else {
      assert line + "" == line;
    }
  }

  // ---------------------------------------------------------------- lower-casing and dropping v's

  function Lowered(c: char): char {
    if 'A' <= c <= 'Z' then (c as int + 32) as char else c
  }

  /** `str.lower` on text whose characters outside ASCII have no case. */
  function AsciiLower(s: string): string {
    if s == [] then [] else [Lowered(s[0])] + AsciiLower(s[1..])
  }

  function Folded(s: string): string {
    RemoveV(AsciiLower(s))
  }

  function FoldedIf(s: Option<string>): Option<string> {
    if s.Some? then Some(Folded(s.value)) else None
  }

  /** An upper-case letter or a v. */
  predicate IsMark(c: char) {
    c == 'v' || 'A' <= c <= 'Z'
  }

  predicate NoMarks(s: string) {
    forall i :: 0 <= i < |s| ==> !IsMark(s[i])
  }

  /** Some character is not a v of either case. */
  predicate KeepsSome(s: string) {
    exists i :: 0 <= i < |s| && s[i] != 'v' && s[i] != 'V'
  }

  lemma FoldedCons(c: char, s: string)
    ensures Folded([c] + s) == (if c == 'v' || c == 'V' then [] else [Lowered(c)]) + Folded(s)
  {
    assert ([c] + s)[1..] == s;
    var low := AsciiLower([c] + s);
    assert low == [Lowered(c)] + AsciiLower(s);
    assert low[1..] == AsciiLower(s);
  }

  lemma {:induction false} FoldedAppend(a: string, b: string)
    ensures Folded(a + b) == Folded(a) + Folded(b)
  {
    if a == [] {
      assert a + b == b;
    } else {
      assert a + b == [a[0]] + (a[1..] + b) && a == [a[0]] + a[1..];
      FoldedCons(a[0], a[1..] + b);
      FoldedCons(a[0], a[1..]);
      FoldedAppend(a[1..], b);
    }
  }

  lemma {:induction false} FoldedNoMarks(s: string)
    ensures NoMarks(Folded(s))
    ensures NoMarks(s) ==> Folded(s) == s
    ensures Folded(s) != [] <==> KeepsSome(s)
  {
    if s != [] {
      FoldedCons(s[0], s[1..]);
      FoldedNoMarks(s[1..]);
      assert s == [s[0]] + s[1..];
      if KeepsSome(s[1..]) {
        var i :| 0 <= i < |s[1..]| && s[1..][i] != 'v' && s[1..][i] != 'V';
        assert s[i + 1] == s[1..][i];
      }
    }
  }

  /** Characters that are no letters come and go with the text. */
  lemma {:induction false} FoldedHas(s: string, c: char)
    requires !('A' <= c <= 'Z') && !('a' <= c <= 'z')
    ensures c in Folded(s) <==> c in s
  {
    if s != [] {
      FoldedCons(s[0], s[1..]);
      FoldedHas(s[1..], c);
      assert s == [s[0]] + s[1..];
    }
  }

  function FoldedGroups(groups: seq<string>): seq<string> {
    seq(|groups|, i requires 0 <= i < |groups| => Folded(groups[i]))
  }

  lemma FoldedGroupsCons(first: string, rest: seq<string>)
    ensures FoldedGroups([first] + rest) == [Folded(first)] + FoldedGroups(rest)
  {
  }

  lemma {:induction false} SplitFolded(s: string)
    ensures SplitDots(Folded(s)) == FoldedGroups(SplitDots(s))
  {
    if s != [] {
      SplitFolded(s[1..]);
      assert s == [s[0]] + s[1..];
      SplitFoldedCons(s[0], s[1..]);
    }
  }

  lemma SplitFoldedCons(c: char, s: string)
    requires SplitDots(Folded(s)) == FoldedGroups(SplitDots(s))
    ensures SplitDots(Folded([c] + s)) == FoldedGroups(SplitDots([c] + s))
  {
    var rest := SplitDots(s);
    var first, others := rest[0], rest[1..];
    SplitCons(c, s);
    FoldedCons(c, s);
    FoldedCons(c, first);
    FoldedGroupsCons("", rest);
    FoldedGroupsCons(first, others);
    FoldedGroupsCons([c] + first, others);
    assert rest == [first] + others;
    if c == 'v' || c == 'V' {
      assert [] + Folded(s) == Folded(s) && [] + Folded(first) == Folded(first);
    } else {
      assert Lowered(c) == '.' <==> c == '.';
      SplitCons(Lowered(c), Folded(s));
    }
  }

  /** A pre-release with marks is read differently once they are gone. */
  lemma MarkedPreDiffers(pre: string)
    requires AllIdentifiers(SplitDots(pre)) && !NoMarks(pre)
    ensures ToIdentifiers(SplitDots(Folded(pre))) != ToIdentifiers(SplitDots(pre))
  {
    var groups := SplitDots(pre);
    JoinSplit(pre);
    var k := MarkedGroup(groups);
    SplitFolded(pre);
    FoldedNoMarks(groups[k]);
    assert !Digits(groups[k]);
    assert ToIdentifiers(groups)[k] == Word(groups[k]);
    assert ToIdentifiers(FoldedGroups(groups))[k] == ToIdentifier(Folded(groups[k]));
  }

  lemma {:induction false} MarkedGroup(groups: seq<string>) returns (k: nat)
    requires groups != [] && !NoMarks(Join(groups))
    ensures k < |groups| && !NoMarks(groups[k])
  {
    if !NoMarks(groups[0]) {
      k := 0;
    } else {
      k := MarkedGroup(groups[1..]);
      k := k + 1;
    }
  }

  // ---------------------------------------------------------------- which versions are ordered properly

  /** What normalising does to a matching text: the numbers stay, the rest is folded, and the
      result matches iff what is left is well-formed. */
  lemma MatchFolded(s: string)
    requires Match(s).Some?
    ensures var (groups, build) := Cut(Line(s));
            var folded := Groups(groups.core, FoldedIf(groups.pre));
            && Match(s) == Some(groups) && WellFormed(groups, build)
            && Match(Folded(s)) == if WellFormed(folded, FoldedIf(build)) then Some(folded) else None
  {
    var (groups, build) := Cut(Line(s));
    var newline := s != [] && s[|s| - 1] == '\n';
    JoinedCut(Line(s));
    LineEnd(s);
    FoldedParts(groups, build, newline);
    FoldedKeepsOut(groups, build);
    var pre, rest := FoldedIf(groups.pre), FoldedIf(build);
    LineOf(groups.core + Optional('-', pre) + Optional('+', rest), newline);
    CutJoined(Groups(groups.core, pre), rest);
  }

  lemma FoldedParts(groups: Groups, build: Option<string>, newline: bool)
    requires WellFormed(groups, build)
    ensures Folded(groups.core + Optional('-', groups.pre) + Optional('+', build) + (if newline then "\n" else ""))
         == groups.core + Optional('-', FoldedIf(groups.pre)) + Optional('+', FoldedIf(build))
             + (if newline then "\n" else "")
  {
    var end := if newline then "\n" else "";
    FoldedCore(groups.core);
    FoldedOptional('-', groups.pre);
    FoldedOptional('+', build);
    if newline {
      FoldedCons('\n', []);
      assert ['\n'] + [] == "\n";
    }
    FoldedAppend(groups.core, Optional('-', groups.pre));
    FoldedAppend(groups.core + Optional('-', groups.pre), Optional('+', build));
    FoldedAppend(groups.core + Optional('-', groups.pre) + Optional('+', build), end);
  }

  lemma FoldedCore(core: string)
    requires AllDigits(SplitDots(core))
    ensures Folded(core) == core
  {
    JoinSplit(core);
    JoinDigits(SplitDots(core));
    FoldedNoMarks(core);
  }

  lemma FoldedOptional(mark: char, s: Option<string>)
    requires !IsMark(mark)
    ensures Folded(Optional(mark, s)) == Optional(mark, FoldedIf(s))
  {
    if s.Some? {
      FoldedCons(mark, s.value);
    }
  }

  /** Folding brings in no separator and no newline. */
  lemma FoldedKeepsOut(groups: Groups, build: Option<string>)
    requires WellFormed(groups, build)
    ensures '+' !in groups.core && '-' !in groups.core
    ensures groups.pre.Some? ==> '+' !in Folded(groups.pre.value)
    ensures '\n' !in groups.core + Optional('-', FoldedIf(groups.pre)) + Optional('+', FoldedIf(build))
  {
    DottedDigits(groups.core);
    DottedIdentifiers(groups.core);
    if groups.pre.Some? {
      DottedIdentifiers(groups.pre.value);
      FoldedHas(groups.pre.value, '+');
      FoldedHas(groups.pre.value, '\n');
    }
    if build.Some? {
      FoldedHas(build.value, '\n');
    }
  }

  /** No upper-case letter and no v in the pre-release, and a character other than v in the build
      metadata, if there is any; or version 0.0.0 without a pre-release. */
  predicate ReadsTheSame(a: string)
    requires Match(a).Some?
  {
    var (groups, build) := Cut(Line(a));
    || ((groups.pre.Some? ==> NoMarks(groups.pre.value)) && (build.Some? ==> KeepsSome(build.value)))
    || (groups.pre.None? && AllZeros(groups.core))
  }

  predicate AllZeros(core: string) {
    forall i :: 0 <= i < |core| ==> core[i] == '0' || core[i] == '.'
  }

  /** Normalising keeps a version's place iff its text reads the same. */
  lemma SamePrecedenceIff(a: string)
    requires Match(a).Some?
    ensures CompareParsed(Parse(Folded(a)), Parse(a)) == 0 <==> ReadsTheSame(a)
  {
    var (groups, build) := Cut(Line(a));
    var folded := Groups(groups.core, FoldedIf(groups.pre));
    MatchFolded(a);
    ParsedZeroIff(Parse(Folded(a)), Parse(a));
    if build.Some? {
      FoldedNoMarks(build.value);
      FoldedHas(build.value, '\n');
    }
    if groups.pre.Some? {
      PreNotEmpty(groups.pre.value);
      FoldedNoMarks(groups.pre.value);
      if !NoMarks(groups.pre.value) {
        MarkedPreDiffers(groups.pre.value);
      }
    }
    ZerosTrim(groups.core);
  }

  lemma ZerosTrim(core: string)
    requires AllDigits(SplitDots(core))
    ensures TrimZeros(ToNats(SplitDots(core))) == TrimZeros([]) <==> AllZeros(core)
  {
    AllZeroIff(ToNats(SplitDots(core)));
    ZerosAreZero(core);
  }

  lemma ZerosAreZero(core: string)
    requires AllDigits(SplitDots(core))
    ensures AllZeros(core) <==> forall i :: 0 <= i < |SplitDots(core)| ==> ToNats(SplitDots(core))[i] == 0
  {
    var groups := SplitDots(core);
    JoinSplit(core);
    ZeroGroups(groups);
    forall i | 0 <= i < |groups| ensures ToNats(groups)[i] == 0 <==> AllZeros(groups[i]) {
      assert Digits(groups[i]);
      ZeroGroup(groups[i]);
    }
  }

  lemma {:induction false} ZeroGroups(groups: seq<string>)
    requires groups != []
    ensures AllZeros(Join(groups)) <==> forall i :: 0 <= i < |groups| ==> AllZeros(groups[i])
  {
    if |groups| > 1 {
      ZeroGroups(groups[1..]);
      ZerosConcat(groups[0], ".");
      ZerosConcat(groups[0] + ".", Join(groups[1..]));
      assert groups == [groups[0]] + groups[1..];
    }
  }

  lemma ZerosConcat(s: string, t: string)
    ensures AllZeros(s + t) <==> AllZeros(s) && AllZeros(t)
  {
    if AllZeros(s + t) {
      forall i | 0 <= i < |t| ensures t[i] == '0' || t[i] == '.' {
        assert (s + t)[|s| + i] == t[i];
      }
      forall i | 0 <= i < |s| ensures s[i] == '0' || s[i] == '.' {
        assert (s + t)[i] == s[i];
      }
    }
  }

  lemma {:induction false} ZeroGroup(s: string)
    requires AllDigitChars(s)
    ensures ToNat(s) == 0 <==> AllZeros(s)
  {
    if s != [] {
      ZeroGroup(s[..|s| - 1]);
      ZerosConcat(s[..|s| - 1], [s[|s| - 1]]);
      assert s == s[..|s| - 1] + [s[|s| - 1]];
      assert IsDigit(s[|s| - 1]);
    }
  }

  lemma PreNotEmpty(pre: string)
    requires AllIdentifiers(SplitDots(pre))
    ensures pre != "" && SplitPre(Some(pre)) == Some(ToIdentifiers(SplitDots(pre)))
  {
    DottedIdentifiers(pre);
  }

  lemma {:induction false} AllZeroIff(numbers: seq<nat>)
    ensures TrimZeros(numbers) == TrimZeros([]) <==> forall i :: 0 <= i < |numbers| ==> numbers[i] == 0
  {
    if numbers != [] && numbers[|numbers| - 1] == 0 {
      AllZeroIff(numbers[..|numbers| - 1]);
    }
  }

  predicate Ascii(s: string) {
    forall i :: 0 <= i < |s| ==> s[i] < 128 as char
  }

  /** What `str.lower` does to ASCII text. */
  ghost predicate LowersAscii(lower: Lowering) {
    forall s | Ascii(s) :: lower(s) == AsciiLower(s)
  }

  /** A version, of whose characters outside ASCII none has a case. */
  ghost predicate Plain(lower: Lowering, a: string) {
    Match(a).Some? && lower(a) == AsciiLower(a)
  }

  /** On versions that read the same the comparison is the precedence of section 11; build metadata
      is ignored. */
  lemma FollowsSemver(lower: Lowering, a: string, b: string)
    requires Plain(lower, a) && Plain(lower, b) && ReadsTheSame(a) && ReadsTheSame(b)
    ensures OrderedRight(lower, a, b)
    ensures Compare(lower, a, b) == 0 <==> SameVersion(Parse(a), Parse(b))
  {
    var x, y := Parse(Folded(a)), Parse(Folded(b));
    SamePrecedenceIff(a);
    SamePrecedenceIff(b);
    EqualParsed(x, Parse(a), y);
    ParsedAntisymmetric(Parse(a), y);
    ParsedAntisymmetric(Parse(a), Parse(b));
    EqualParsed(y, Parse(b), Parse(a));
    ParsedAntisymmetric(y, Parse(a));
    ParsedOrdersTexts(a, b);
  }

  /** The code orders `a` as section 11 does, against all versions that read the same. */
  ghost predicate OrderedAsSemver(lower: Lowering, a: string)
    requires Plain(lower, a)
  {
    forall b | Plain(lower, b) && ReadsTheSame(b) :: OrderedRight(lower, a, b)
  }

  /** A version is ordered as section 11 asks iff its own text reads the same. */
  lemma OrderedAsSemverIff(lower: Lowering, a: string)
    requires LowersAscii(lower) && Plain(lower, a)
    ensures OrderedAsSemver(lower, a) <==> ReadsTheSame(a)
  {
    if ReadsTheSame(a) {
      forall b | Plain(lower, b) && ReadsTheSame(b) ensures OrderedRight(lower, a, b) {
        FollowsSemver(lower, a, b);
      }
    } else {
      var b := TakenFor(lower, a);
    }
  }

  /** A version that does not read the same is taken for another one, which does. */
  lemma TakenFor(lower: Lowering, a: string) returns (b: string)
    requires LowersAscii(lower) && Plain(lower, a) && !ReadsTheSame(a)
    ensures Plain(lower, b) && ReadsTheSame(b) && Compare(lower, a, b) == 0 && (Precedes(a, b) || Precedes(b, a))
    ensures !OrderedRight(lower, a, b)
  {
    var (groups, build) := Cut(Line(a));
    var folded := Groups(groups.core, FoldedIf(groups.pre));
    MatchFolded(a);
    if WellFormed(folded, FoldedIf(build)) {
      b := folded.core + Optional('-', folded.pre);
      TakenForFolded(lower, a);
    } else {
      b := TakenForZero(lower, a);
    }
    TakenForIsWrong(lower, a, b);
  }

  lemma TakenForIsWrong(lower: Lowering, a: string, b: string)
    requires Plain(lower, a) && Plain(lower, b) && Compare(lower, a, b) == 0 && !SameVersion(Parse(a), Parse(b))
    ensures !OrderedRight(lower, a, b) && (Precedes(a, b) || Precedes(b, a))
  {
    ParsedOrdersTexts(a, b);
  }

  lemma TakenForFolded(lower: Lowering, a: string)
    requires LowersAscii(lower) && Plain(lower, a) && !ReadsTheSame(a)
    requires var (groups, build) := Cut(Line(a));
             WellFormed(Groups(groups.core, FoldedIf(groups.pre)), FoldedIf(build))
    ensures var groups := Cut(Line(a)).0;
            var b := groups.core + Optional('-', FoldedIf(groups.pre));
            Plain(lower, b) && ReadsTheSame(b) && Compare(lower, a, b) == 0 && !SameVersion(Parse(a), Parse(b))
  {
    var (groups, build) := Cut(Line(a));
    var folded := Groups(groups.core, FoldedIf(groups.pre));
    var b := groups.core + Optional('-', folded.pre);
    MatchFolded(a);
    PlainText(lower, folded);
    if build.Some? {
      FoldedNoMarks(build.value);
    }
    var pre := groups.pre.value;
    FoldedNoMarks(pre);
    MarkedPreDiffers(pre);
    PreNotEmpty(pre);
    PreNotEmpty(Folded(pre));
    SamePrecedenceIff(b);
    ParsedAntisymmetric(Parse(Folded(b)), Parse(b));
  }

  lemma TakenForZero(lower: Lowering, a: string) returns (b: string)
    requires LowersAscii(lower) && Plain(lower, a) && !ReadsTheSame(a) && Match(Folded(a)).None?
    ensures Plain(lower, b) && ReadsTheSame(b) && Compare(lower, a, b) == 0 && !SameVersion(Parse(a), Parse(b))
  {
    b := ZeroText(lower);
    if SameVersion(Parse(a), Parse(b)) {
      SameAsZero(Parse(a).numbers, [0, 0, 0]);
      ZeroReadsTheSame(a);
    }
    EqualParsed(Version([], None), Parse(b), Parse(Folded(b)));
    SamePrecedenceIff(b);
    ParsedAntisymmetric(Parse(b), Parse(Folded(b)));
  }

  lemma SameAsZero(numbers: seq<nat>, zeros: seq<nat>)
    requires forall i :: 0 <= i < |zeros| ==> zeros[i] == 0
    requires Padded(numbers, Max(|numbers|, |zeros|)) == Padded(zeros, Max(|numbers|, |zeros|))
    ensures forall i :: 0 <= i < |numbers| ==> numbers[i] == 0
  {
    var n := Max(|numbers|, |zeros|);
    forall i | 0 <= i < |numbers| ensures numbers[i] == 0 {
      assert Padded(numbers, n)[i] == Padded(zeros, n)[i];
    }
  }

  lemma ZeroReadsTheSame(a: string)
    requires Match(a).Some? && Parse(a).pre.None?
    requires forall i :: 0 <= i < |Parse(a).numbers| ==> Parse(a).numbers[i] == 0
    ensures ReadsTheSame(a)
  {
    ZerosAreZero(Cut(Line(a)).0.core);
    if Cut(Line(a)).0.pre.Some? {
      PreNotEmpty(Cut(Line(a)).0.pre.value);
    }
  }

  /** The text 0.0.0. */
  lemma ZeroText(lower: Lowering) returns (b: string)
    requires LowersAscii(lower)
    ensures Plain(lower, b) && Match(b).Some? && ReadsTheSame(b) && Parse(b) == Version([0, 0, 0], None)
    ensures CompareParsed(Version([], None), Parse(b)) == 0
  {
    var core := ZeroCore();
    b := core + Optional('-', None);
    PlainText(lower, Groups(core, None));
    assert ToNats(SplitDots(core)) == [0, 0, 0];
    ZeroReadsTheSame(b);
    AllZeroIff([0, 0, 0]);
    ParsedZeroIff(Version([], None), Parse(b));
  }

  lemma ZeroCore() returns (core: string)
    ensures SplitDots(core) == [['0'], ['0'], ['0']]
  {
    var zero := ['0'];
    var two := zero + ['.'] + zero;
    core := zero + ['.'] + two;
    OneGroup(zero);
    SplitCons('.', zero);
    SplitCons('0', ['.'] + zero);
    assert two == ['0'] + (['.'] + zero);
    SplitCons('.', two);
    SplitCons('0', ['.'] + two);
    assert core == ['0'] + (['.'] + two);
  }

  /** Numbers and pre-release, joined. */
  lemma PlainText(lower: Lowering, groups: Groups)
    requires LowersAscii(lower) && WellFormed(groups, None)
    ensures var b := groups.core + Optional('-', groups.pre);
            && Plain(lower, b) && Cut(Line(b)) == (groups, None) && Match(b) == Some(groups)
  {
    var b := groups.core + Optional('-', groups.pre);
    CutWellFormed(groups, None);
    assert b + Optional('+', None) == b;
    DottedAscii(groups.core);
    if groups.pre.Some? {
      DottedAscii(groups.pre.value);
    }
    assert Ascii(b);
  }

  lemma DottedAscii(s: string)
    requires AllIdentifiers(SplitDots(s)) || AllDigits(SplitDots(s))
    ensures Ascii(s)
  {
    JoinSplit(s);
    if AllDigits(SplitDots(s)) {
      JoinDigits(SplitDots(s));
    }
    JoinChars(SplitDots(s));
  }

  // ---------------------------------------------------------------- versions that are mistaken

  /** A pre-release or build metadata of nothing but v's is lost, the text then matches no more, and
      the version counts as version 0. */
  lemma OnlyVs(lower: Lowering, a: string, b: string)
    requires Match(a).Some? && lower(a) == AsciiLower(a)
    requires var (groups, build) := Cut(Line(a));
             || (groups.pre.Some? && !KeepsSome(groups.pre.value))
             || (build.Some? && !KeepsSome(build.value))
    ensures Compare(lower, a, b) == CompareParsed(Version([0], None), Parse(Normalise(lower, b)))
  {
    var (groups, build) := Cut(Line(a));
    MatchFolded(a);
    if build.Some? {
      FoldedNoMarks(build.value);
    }
    if groups.pre.Some? {
      FoldedNoMarks(groups.pre.value);
      if !KeepsSome(groups.pre.value) {
        assert SplitDots("") == [""];
        assert !IdentifierChars([""][0]);
      }
    }
    UnmatchedIsZero(lower, a, b);
  }

  /** Every "1.2.3-v" and every "1.2.3+v" counts as version 0.  The first is always ordered wrongly,
      the second unless it is "0.0.0+v". */
  lemma TaggedV(lower: Lowering, core: string, mark: char, b: string)
    requires AllDigits(SplitDots(core)) && (mark == '-' || mark == '+')
    requires lower(core + [mark, 'v']) == AsciiLower(core + [mark, 'v'])
    ensures var a := core + [mark, 'v'];
            && Parse(a) == Version(ToNats(SplitDots(core)), if mark == '-' then Some([Word("v")]) else None)
            && Compare(lower, a, b) == CompareParsed(Version([0], None), Parse(Normalise(lower, b)))
            && (LowersAscii(lower) ==>
                  (OrderedAsSemver(lower, a) <==> mark == '+' && AllZeros(core)))
  {
    var a := core + [mark, 'v'];
    TaggedCut(core, mark);
    OnlyVs(lower, a, b);
    if LowersAscii(lower) {
      OrderedAsSemverIff(lower, a);
    }
  }

  lemma TaggedCut(core: string, mark: char)
    requires AllDigits(SplitDots(core)) && (mark == '-' || mark == '+')
    ensures var v := Some(['v']);
            var (groups, build) := (Groups(core, if mark == '-' then v else None), if mark == '+' then v else None);
            && Cut(Line(core + [mark, 'v'])) == (groups, build) && Match(core + [mark, 'v']) == Some(groups)
            && SplitPre(groups.pre) == if mark == '-' then Some([Word("v")]) else None
  {
    var v := ['v'];
    OneGroup(v);
    assert ToIdentifiers([v]) == [Word(v)];
    if mark == '-' {
      CutWellFormed(Groups(core, Some(v)), None);
      assert core + Optional('-', Some(v)) + Optional('+', None) == core + [mark, 'v'];
    } else {
      CutWellFormed(Groups(core, None), Some(v));
      assert core + Optional('-', None) + Optional('+', Some(v)) == core + [mark, 'v'];
    }
  }

  lemma CutWellFormed(groups: Groups, build: Option<string>)
    requires WellFormed(groups, build)
    ensures var s := groups.core + Optional('-', groups.pre) + Optional('+', build);
            Cut(Line(s)) == (groups, build) && Match(s) == Some(groups)
  {
    var s := groups.core + Optional('-', groups.pre) + Optional('+', build);
    WellFormedDotted(groups, build);
    DottedWellFormed(groups, build);
    LineOf(s, false);
    assert s + "" == s;
    CutJoined(groups, build);
  }

  lemma OneGroup(s: string)
    requires IdentifierChars(s)
    ensures SplitDots(s) == [s]
  {
    NoDots([s]);
    SplitJoin([s]);
  }

  /** Every pre-release that begins with an upper-case letter is on the wrong side of one that
      reads the same and whose first letter is between its own in both cases. */
  lemma UpperCaseMisordered(lower: Lowering, core: string, s: string, t: string)
    requires LowersAscii(lower) && AllDigits(SplitDots(core))
    requires IsWord(s) && NoMarks(s) && IsWord(t) && IsWord(Folded(t)) && t[0] < s[0] < Folded(t)[0]
    ensures var a, b := core + Optional('-', Some(s)), core + Optional('-', Some(t));
            && Plain(lower, a) && Plain(lower, b) && ReadsTheSame(a)
            && Compare(lower, a, b) < 0 && Precedes(b, a)
  {
    var numbers := ToNats(SplitDots(core));
    FoldedNoMarks(s);
    SinglePre(lower, core, s);
    SinglePre(lower, core, t);
    CompareSinglePres(numbers, s, Folded(t));
    CompareSinglePres(numbers, t, s);
    ParsedOrdersTexts(core + Optional('-', Some(t)), core + Optional('-', Some(s)));
  }

  /** 1.0.0-RC is lower than 1.0.0-beta, but not for the code. */
  lemma BetaBeforeRC(lower: Lowering, core: string) returns (a: string, b: string)
    requires LowersAscii(lower) && AllDigits(SplitDots(core))
    ensures a == core + "-beta" && b == core + "-RC"
    ensures Plain(lower, a) && Plain(lower, b) && ReadsTheSame(a)
    ensures Compare(lower, a, b) < 0 && Precedes(b, a)
  {
    var beta, rc := Words(core);
    a, b := core + Optional('-', Some(beta)), core + Optional('-', Some(rc));
    UpperCaseMisordered(lower, core, beta, rc);
  }

  lemma Words(core: string) returns (beta: string, rc: string)
    ensures core + Optional('-', Some(beta)) == core + "-beta" && core + Optional('-', Some(rc)) == core + "-RC"
    ensures IsWord(beta) && NoMarks(beta) && IsWord(rc) && IsWord(Folded(rc)) && rc[0] < beta[0] < Folded(rc)[0]
  {
    beta, rc := ['b', 'e', 't', 'a'], ['R'] + ['C'];
    FoldedCons('R', ['C']);
    FoldedCons('C', []);
    assert !IsDigit(beta[0]) && !IsDigit(rc[0]);
    assert ['C'] == ['C'] + [] && Folded(rc) == ['r', 'c'];
  }

  predicate IsWord(s: string) {
    IdentifierChars(s) && !Digits(s)
  }

  lemma SinglePre(lower: Lowering, core: string, word: string)
    requires LowersAscii(lower) && AllDigits(SplitDots(core))
    requires IsWord(word) && IsWord(Folded(word))
    ensures var a := core + Optional('-', Some(word));
            && Plain(lower, a) && Cut(Line(a)) == (Groups(core, Some(word)), None)
            && Parse(a) == Version(ToNats(SplitDots(core)), Some([Word(word)]))
            && Parse(Folded(a)) == Version(ToNats(SplitDots(core)), Some([Word(Folded(word))]))
  {
    ParseSingle(core, word);
    ParseSingle(core, Folded(word));
    PlainText(lower, Groups(core, Some(word)));
    FoldedAppend(core, Optional('-', Some(word)));
    FoldedCore(core);
    FoldedOptional('-', Some(word));
  }

  lemma ParseSingle(core: string, word: string)
    requires AllDigits(SplitDots(core)) && IsWord(word)
    ensures WellFormed(Groups(core, Some(word)), None)
    ensures Parse(core + Optional('-', Some(word))) == Version(ToNats(SplitDots(core)), Some([Word(word)]))
  {
    SingleWord(word);
    CutWellFormed(Groups(core, Some(word)), None);
    assert core + Optional('-', Some(word)) + Optional('+', None) == core + Optional('-', Some(word));
  }

  lemma SingleWord(word: string)
    requires IsWord(word)
    ensures AllIdentifiers(SplitDots(word)) && SplitPre(Some(word)) == Some([Word(word)])
  {
    OneGroup(word);
    assert ToIdentifiers([word]) == [Word(word)];
  }

  lemma CompareSinglePres(numbers: seq<nat>, s: string, t: string)
    requires s != "" && t != "" && s[0] < t[0]
    ensures CompareParsed(Version(numbers, Some([Word(s)])), Version(numbers, Some([Word(t)]))) < 0
  {
    NumbersAntisymmetric(numbers, numbers);
  }

  /** No version is ordered as section 11 asks against all others: one that reads the same is
      misordered with one that does not, and the other way round. */
  lemma NoneOrderedThroughout(lower: Lowering, a: string) returns (b: string)
    requires LowersAscii(lower) && Plain(lower, a)
    ensures Plain(lower, b) && !OrderedRight(lower, a, b)
    ensures ReadsTheSame(b) <==> !ReadsTheSame(a)
  {
    var groups := Cut(Line(a)).0;
    if !ReadsTheSame(a) {
      b := TakenFor(lower, a);
    } else if groups.pre.Some? {
      b := groups.core + Optional('-', Some(['v'] + groups.pre.value));
      MarkedIsTakenFor(lower, a);
      TakenForIsWrong(lower, a, b);
    } else {
      b := ['1'] + groups.core + ['+', 'v'];
      HigherIsTakenForZero(lower, a);
    }
  }

  /** A pre-release with another v in front. */
  lemma MarkedIsTakenFor(lower: Lowering, a: string)
    requires LowersAscii(lower) && Plain(lower, a) && ReadsTheSame(a) && Cut(Line(a)).0.pre.Some?
    ensures var groups := Cut(Line(a)).0;
            var b := groups.core + Optional('-', Some(['v'] + groups.pre.value));
            Plain(lower, b) && !ReadsTheSame(b) && Compare(lower, a, b) == 0 && !SameVersion(Parse(a), Parse(b))
  {
    var groups := Cut(Line(a)).0;
    var marked := Some(['v'] + groups.pre.value);
    var b := groups.core + Optional('-', marked);
    MarkedPre(groups.pre.value);
    PlainText(lower, Groups(groups.core, marked));
    MatchFolded(b);
    assert Parse(Folded(b)) == Parse(a);
    SamePrecedenceIff(a);
  }

  lemma MarkedPre(pre: string)
    requires AllIdentifiers(SplitDots(pre)) && NoMarks(pre)
    ensures var marked := ['v'] + pre;
            && AllIdentifiers(SplitDots(marked)) && !NoMarks(marked) && Folded(marked) == pre
            && SplitPre(Some(marked)) != SplitPre(Some(pre))
  {
    var marked, parts := ['v'] + pre, SplitDots(pre);
    SplitCons('v', pre);
    assert IdentifierChars(parts[0]);
    FoldedCons('v', pre);
    FoldedNoMarks(pre);
    assert IsMark(marked[0]);
    MarkedPreDiffers(marked);
    PreNotEmpty(marked);
    PreNotEmpty(pre);
  }

  /** A higher version that counts as version 0. */
  lemma HigherIsTakenForZero(lower: Lowering, a: string)
    requires LowersAscii(lower) && Plain(lower, a) && ReadsTheSame(a) && Cut(Line(a)).0.pre.None?
    ensures var b := ['1'] + Cut(Line(a)).0.core + ['+', 'v'];
            Plain(lower, b) && !ReadsTheSame(b) && !OrderedRight(lower, a, b)
  {
    var core := Cut(Line(a)).0.core;
    var b := ['1'] + core + ['+', 'v'];
    HigherCore(core);
    DottedAscii(['1'] + core);
    assert Ascii(b);
    TaggedV(lower, ['1'] + core, '+', a);
    FirstNumberLower(Parse(a), Parse(b));
    PrecedesParsed(a, b);
    NotBelowZero(a);
    CompareAntisymmetric(lower, a, b);
    OrderedAsSemverIff(lower, b);
  }

  lemma FirstNumberLower(x: Version, y: Version)
    requires |x.numbers| == |y.numbers| > 0 && x.numbers[0] < y.numbers[0]
    ensures ParsedPrecedes(x, y)
  {
    var n := |x.numbers|;
    assert Padded(x.numbers, n) == x.numbers && Padded(y.numbers, n) == y.numbers;
    assert FirstDifference(x.numbers, y.numbers, (m: nat, n: nat) => m < n, 0);
  }

  lemma HigherCore(core: string)
    requires AllDigits(SplitDots(core))
    ensures var parts, higher := SplitDots(core), SplitDots(['1'] + core);
            AllDigits(higher) && |higher| == |parts| && ToNat(higher[0]) > ToNat(parts[0])
  {
    SplitCons('1', core);
    assert Digits(SplitDots(core)[0]);
    LeadingOne(SplitDots(core)[0]);
  }

  lemma NotBelowZero(a: string)
    requires Match(a).Some? && ReadsTheSame(a) && Cut(Line(a)).0.pre.None?
    ensures CompareParsed(Version([0], None), Parse(Folded(a))) <= 0
  {
    var zero := Version([0], None);
    SamePrecedenceIff(a);
    ZeroIsLowest(Parse(a));
    EqualParsed(Parse(Folded(a)), Parse(a), zero);
    ParsedAntisymmetric(zero, Parse(a));
    ParsedAntisymmetric(zero, Parse(Folded(a)));
  }

  lemma {:induction false} LeadingOne(digits: string)
    requires forall i :: 0 <= i < |digits| ==> IsDigit(digits[i])
    ensures ToNat(['1'] + digits) > ToNat(digits)
  {
    if digits == [] {
      assert ['1'] + digits == ['1'];
    } else {
      var k := |digits| - 1;
      LeadingOne(digits[..k]);
      assert (['1'] + digits)[..k + 1] == ['1'] + digits[..k];
    }
  }

  lemma ZeroIsLowest(y: Version)
    requires y.pre.None?
    ensures CompareParsed(Version([0], None), y) <= 0
  {
    var zero: seq<nat> := [0];
    var n := Max(1, |y.numbers|);
    ZerosLowest(Padded(zero, n), Padded(y.numbers, n));
  }

  lemma {:induction false} ZerosLowest(a: seq<nat>, b: seq<nat>)
    requires |a| == |b| && forall i :: 0 <= i < |a| ==> a[i] == 0
    ensures CompareSeq(a, b, CompareNat) <= 0
  {
    if a != [] {
      ZerosLowest(a[1..], b[1..]);
    }
  }
}
