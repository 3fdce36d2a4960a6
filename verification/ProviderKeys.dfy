/** The provider key manager: discovery, round-robin rotation and cooldowns. */
module ProviderKeys {
  import opened Numerals
  import opened Text

  const COOLDOWN_UNAUTHORIZED: real := 3600.0
  const COOLDOWN_RATE_LIMITED: real := 60.0
  const COOLDOWN_SERVER_ERROR: real := 30.0
  const COOLDOWN_TIMEOUT: real := 15.0
  const COOLDOWN_UNKNOWN: real := 10.0

  datatype KeyStatus = Available | RateLimited | Unauthorized | Error

  /** What a caller reports about a failed request. */
  datatype Failure = Failure(code: Option<int>, errorType: string)

  function CooldownFor(f: Failure): real {
    if f.code == Some(401) || f.code == Some(403) then COOLDOWN_UNAUTHORIZED
    else if f.code == Some(429) then COOLDOWN_RATE_LIMITED
    else if f.code.Some? && 500 <= f.code.value < 600 then COOLDOWN_SERVER_ERROR
    else if f.errorType == "timeout" || f.errorType == "connection" then COOLDOWN_TIMEOUT
    else COOLDOWN_UNKNOWN
  }

  function StatusFor(f: Failure): KeyStatus {
    if f.code == Some(401) || f.code == Some(403) then Unauthorized
    else if f.code == Some(429) then RateLimited
    else Error
  }

  // ---------------------------------------------------------------- discovery

  /** An environment: variable names with their values, in iteration order. */
  type Environ = seq<(string, string)>

  function ValueOf(environ: Environ, name: string): string {
    if environ == [] then ""
    else if environ[0].0 == name then environ[0].1
    else ValueOf(environ[1..], name)
  }

  /** The number n when a variable is named PREFIXn. */
  function NumberAfter(prefix: string, name: string): Option<nat> {
    if prefix < name && AllDigitChars(name[|prefix|..]) then Some(ToNat(name[|prefix|..])) else None
  }

  /** The non-blank numbered values; of two spellings of one number the later variable wins. */
  function Numbered(environ: Environ, prefix: string): map<nat, string> {
    if environ == [] then map[]
    else
      var (name, raw) := environ[|environ| - 1];
      var before := Numbered(environ[..|environ| - 1], prefix);
      match NumberAfter(prefix, name)
      case None => before
      case Some(n) => if Strip(raw) == "" then before else before[n := Strip(raw)]
  }

  /** The values of a numbering below a bound, in numeric order. */
  ghost function ByNumber(numbered: map<nat, string>, below: nat): seq<string> {
    if below == 0 then []
    else ByNumber(numbered, below - 1) + (if below - 1 in numbered then [numbered[below - 1]] else [])
  }

  /** A bound on the numbers in use. */
  ghost function Beyond(environ: Environ, prefix: string): nat {
    if environ == [] then 0
    else
      var before, n := Beyond(environ[..|environ| - 1], prefix), NumberAfter(prefix, environ[|environ| - 1].0);
      if n.Some? && n.value >= before then n.value + 1 else before
  }

  lemma {:induction false} NumbersBelow(environ: Environ, prefix: string)
    ensures forall n :: n in Numbered(environ, prefix) ==> n < Beyond(environ, prefix)
  {
    if environ != [] {
      NumbersBelow(environ[..|environ| - 1], prefix);
    }
  }

  /** The discovered keys: the base variable first, then the numbered ones in numeric order,
      each value once. */
  ghost function Discovered(prefix: string, environ: Environ): seq<string> {
    var base := Strip(ValueOf(environ, prefix));
    Distinct((if base == "" then [] else [base]) + ByNumber(Numbered(environ, prefix), Beyond(environ, prefix)))
  }

  lemma DiscoveredIsDistinct(prefix: string, environ: Environ)
    ensures NoDuplicates(Discovered(prefix, environ))
  {
    var base := Strip(ValueOf(environ, prefix));
    DistinctIsDistinct((if base == "" then [] else [base])
        + ByNumber(Numbered(environ, prefix), Beyond(environ, prefix)));
  }

  /** First occurrences only. */
  ghost function Distinct(values: seq<string>): seq<string> {
    if values == [] then []
    else
      var d, last := Distinct(values[..|values| - 1]), values[|values| - 1];
      if last in d then d else d + [last]
  }

  ghost predicate NoDuplicates(values: seq<string>) {
    forall i, j :: 0 <= i < j < |values| ==> values[i] != values[j]
  }

  lemma {:induction false} DistinctIsDistinct(values: seq<string>)
    ensures NoDuplicates(Distinct(values))
    ensures forall v :: v in Distinct(values) <==> v in values
  {
    if values != [] {
      DistinctIsDistinct(values[..|values| - 1]);
      assert values == values[..|values| - 1] + [values[|values| - 1]];
    }
  }

  lemma DistinctStep(values: seq<string>, v: string)
    ensures Distinct(values + [v]) == if v in Distinct(values) then Distinct(values) else Distinct(values) + [v]
  {
    assert (values + [v])[..|values|] == values;
  }

  lemma {:induction false} ByNumberGap(numbered: map<nat, string>, lo: nat, hi: nat)
    requires lo <= hi && forall n :: n in numbered && n < hi ==> n < lo
    ensures ByNumber(numbered, hi) == ByNumber(numbered, lo)
    decreases hi
  {
    if lo < hi {
      ByNumberGap(numbered, lo, hi - 1);
    }
  }

  lemma SameByNumber(numbered: map<nat, string>, a: nat, b: nat)
    requires forall n :: n in numbered ==> n < a && n < b
    ensures ByNumber(numbered, a) == ByNumber(numbered, b)
  {
    if a < b {
      ByNumberGap(numbered, a, b);
    } else {
      ByNumberGap(numbered, b, a);
    }
  }

  lemma NextByNumber(first: seq<string>, numbered: map<nat, string>, done: nat, n: nat)
    requires n in numbered && done <= n && forall m :: m in numbered && m >= done ==> n <= m
    ensures var before := Distinct(first + ByNumber(numbered, done));
            Distinct(first + ByNumber(numbered, n + 1))
            == if numbered[n] in before then before else before + [numbered[n]]
  {
    ByNumberGap(numbered, done, n);
    DistinctStep(first + ByNumber(numbered, done), numbered[n]);
    assert first + ByNumber(numbered, n + 1) == first + ByNumber(numbered, done) + [numbered[n]];
  }

  lemma {:induction false} ByNumberValues(numbered: map<nat, string>, below: nat)
    ensures forall v :: v in ByNumber(numbered, below) ==> v in numbered.Values
  {
    if below > 0 {
      ByNumberValues(numbered, below - 1);
    }
  }

  lemma {:induction false} LeastExists(s: set<nat>, x: nat)
    requires x in s
    ensures exists n :: n in s && forall m :: m in s ==> n <= m
    decreases x
  {
    if y :| y in s && y < x {
      LeastExists(s, y);
    } else {
      assert x in s && forall m :: m in s ==> x <= m;
    }
  }

  // ---------------------------------------------------------------- discovery, from the environment alone

  /** The variable is PREFIX with digits after it, and its value is not blank. */
  ghost predicate Counts(environ: Environ, prefix: string, i: nat) {
    && i < |environ| && prefix < environ[i].0
    && (forall k :: |prefix| <= k < |environ[i].0| ==> '0' <= environ[i].0[k] <= '9')
    && !Blank(environ[i].1)
  }

  ghost function Numeral(environ: Environ, prefix: string, i: nat): string
    requires Counts(environ, prefix, i)
  {
    environ[i].0[|prefix|..]
  }

  /** It counts, and no later one of the same number does. */
  ghost predicate Wins(environ: Environ, prefix: string, i: nat) {
    Counts(environ, prefix, i) && forall j ::
      i < j < |environ| && Counts(environ, prefix, j) ==>
        !SameNumeral(Numeral(environ, prefix, i), Numeral(environ, prefix, j))
  }

  lemma CountsIff(environ: Environ, prefix: string, i: nat)
    requires i < |environ|
    ensures Counts(environ, prefix, i) <==>
            NumberAfter(prefix, environ[i].0).Some? && Strip(environ[i].1) != ""
    ensures Counts(environ, prefix, i) ==>
              AllDigitChars(Numeral(environ, prefix, i)) &&
              NumberAfter(prefix, environ[i].0) == Some(ToNat(Numeral(environ, prefix, i)))
  {
    StripEmptyIff(environ[i].1);
    var name := environ[i].0;
    if prefix < name {
      var digits := name[|prefix|..];
      assert forall k :: 0 <= k < |digits| ==> digits[k] == name[|prefix| + k];
      assert forall k :: |prefix| <= k < |name| ==> name[k] == digits[k - |prefix|];
    }
  }

  ghost function NumberOf(environ: Environ, prefix: string, i: nat): nat
    requires Counts(environ, prefix, i)
  {
    CountsIff(environ, prefix, i);
    ToNat(Numeral(environ, prefix, i))
  }

  lemma NumbersCompare(environ: Environ, prefix: string, i: nat, j: nat)
    requires Counts(environ, prefix, i) && Counts(environ, prefix, j)
    ensures var (m, n) := (NumberOf(environ, prefix, i), NumberOf(environ, prefix, j));
            && (m == n <==> SameNumeral(Numeral(environ, prefix, i), Numeral(environ, prefix, j)))
            && (m < n <==> NumeralBefore(Numeral(environ, prefix, i), Numeral(environ, prefix, j)))
  {
    CountsIff(environ, prefix, i);
    CountsIff(environ, prefix, j);
    NumeralOrder(Numeral(environ, prefix, i), Numeral(environ, prefix, j));
  }

  /** The variable that gives number n its value. */
  ghost predicate Gives(environ: Environ, prefix: string, n: nat, i: nat) {
    && Counts(environ, prefix, i) && NumberOf(environ, prefix, i) == n
    && forall j :: i < j < |environ| && Counts(environ, prefix, j) ==> NumberOf(environ, prefix, j) != n
  }

  lemma GivesIffWins(environ: Environ, prefix: string, i: nat)
    requires Counts(environ, prefix, i)
    ensures Gives(environ, prefix, NumberOf(environ, prefix, i), i) <==> Wins(environ, prefix, i)
  {
    forall j | i < j < |environ| && Counts(environ, prefix, j)
      ensures NumberOf(environ, prefix, j) == NumberOf(environ, prefix, i)
         <==> SameNumeral(Numeral(environ, prefix, i), Numeral(environ, prefix, j))
    {
      NumbersCompare(environ, prefix, i, j);
    }
  }

  lemma {:induction false} NumberedHolds(environ: Environ, prefix: string, n: nat, i: nat)
    requires Gives(environ, prefix, n, i)
    ensures n in Numbered(environ, prefix) && Numbered(environ, prefix)[n] == Strip(environ[i].1)
  {
    var last := |environ| - 1;
    var before := environ[..last];
    CountsIff(environ, prefix, last);
    CountsIff(environ, prefix, i);
    if i < last {
      forall j | 0 <= j < last
        ensures Counts(before, prefix, j) <==> Counts(environ, prefix, j)
        ensures Counts(before, prefix, j) ==> NumberOf(before, prefix, j) == NumberOf(environ, prefix, j)
      {
      }
      assert Gives(before, prefix, n, i);
      NumberedHolds(before, prefix, n, i);
    }
  }

  lemma {:induction false} NumberedGiven(environ: Environ, prefix: string, n: nat) returns (i: nat)
    requires n in Numbered(environ, prefix)
    ensures Gives(environ, prefix, n, i)
  {
    var last := |environ| - 1;
    var before := environ[..last];
    CountsIff(environ, prefix, last);
    if Counts(environ, prefix, last) && NumberOf(environ, prefix, last) == n {
      i := last;
    } else {
      i := NumberedGiven(before, prefix, n);
      forall j | 0 <= j < last
        ensures Counts(before, prefix, j) <==> Counts(environ, prefix, j)
        ensures Counts(before, prefix, j) ==> NumberOf(before, prefix, j) == NumberOf(environ, prefix, j)
      {
      }
    }
  }

  /** These variables are the winners with a number below the bound, in the order of their numerals,
      and these are their values. */
  ghost predicate InNumeralOrder(environ: Environ, prefix: string, below: nat, winners: seq<nat>, values: seq<string>) {
    && |values| == |winners|
    && (forall k :: 0 <= k < |winners| ==>
          Wins(environ, prefix, winners[k]) && values[k] == Strip(environ[winners[k]].1) &&
          NumberOf(environ, prefix, winners[k]) < below)
    && (forall j, k :: 0 <= j < k < |winners| ==>
          NumeralBefore(Numeral(environ, prefix, winners[j]), Numeral(environ, prefix, winners[k])))
    && (forall i :: Wins(environ, prefix, i) && NumberOf(environ, prefix, i) < below ==> i in winners)
  }

  lemma {:induction false} WinnersInOrder(environ: Environ, prefix: string, below: nat) returns (winners: seq<nat>)
    ensures InNumeralOrder(environ, prefix, below, winners, ByNumber(Numbered(environ, prefix), below))
  {
    winners := [];
    if below > 0 {
      var n := below - 1;
      winners := WinnersInOrder(environ, prefix, n);
      if n in Numbered(environ, prefix) {
        var i := NumberedGiven(environ, prefix, n);
        NumberedHolds(environ, prefix, n, i);
        GivesIffWins(environ, prefix, i);
        forall k | 0 <= k < |winners|
          ensures NumeralBefore(Numeral(environ, prefix, winners[k]), Numeral(environ, prefix, i))
        {
          NumbersCompare(environ, prefix, winners[k], i);
        }
        OnlyWinner(environ, prefix, n, i);
        winners := winners + [i];
      } else {
        forall i | Wins(environ, prefix, i) ensures NumberOf(environ, prefix, i) != n {
          GivesIffWins(environ, prefix, i);
          NumberedHolds(environ, prefix, NumberOf(environ, prefix, i), i);
        }
      }
    }
  }

  lemma OnlyWinner(environ: Environ, prefix: string, n: nat, i: nat)
    requires Gives(environ, prefix, n, i)
    ensures forall j :: Wins(environ, prefix, j) && NumberOf(environ, prefix, j) == n ==> j == i
  {
    forall j | Wins(environ, prefix, j) && NumberOf(environ, prefix, j) == n ensures j == i {
      GivesIffWins(environ, prefix, j);
    }
  }

  /** The numbered values found: those of the winners, in the order of their numerals. */
  ghost predicate NumberedValues(environ: Environ, prefix: string, winners: seq<nat>, values: seq<string>) {
    && |values| == |winners|
    && (forall k :: 0 <= k < |winners| ==>
          Wins(environ, prefix, winners[k]) && values[k] == Strip(environ[winners[k]].1))
    && (forall j, k :: 0 <= j < k < |winners| ==>
          NumeralBefore(Numeral(environ, prefix, winners[j]), Numeral(environ, prefix, winners[k])))
    && (forall i :: Wins(environ, prefix, i) ==> i in winners)
  }

  /** What is discovered: the value of the base variable, then those of the numbered variables in
      the order of their numerals, each value where it comes first. */
  lemma DiscoveryExact(prefix: string, environ: Environ) returns (winners: seq<nat>, values: seq<string>)
    ensures NumberedValues(environ, prefix, winners, values)
    ensures var base := Strip(ValueOf(environ, prefix));
            Discovered(prefix, environ) == Distinct((if base == "" then [] else [base]) + values)
  {
    var beyond := Beyond(environ, prefix);
    winners := WinnersInOrder(environ, prefix, beyond);
    values := ByNumber(Numbered(environ, prefix), beyond);
    NumbersBelow(environ, prefix);
    forall i | Wins(environ, prefix, i) ensures NumberOf(environ, prefix, i) < beyond {
      GivesIffWins(environ, prefix, i);
      NumberedHolds(environ, prefix, NumberOf(environ, prefix, i), i);
    }
  }

  /** `os.environ.get(name, "")`. */
  lemma {:induction false} ValueOfExact(environ: Environ, name: string)
    ensures (forall i :: 0 <= i < |environ| ==> environ[i].0 != name) ==> ValueOf(environ, name) == ""
    ensures forall i :: 0 <= i < |environ| && environ[i].0 == name && (forall j :: 0 <= j < i ==> environ[j].0 != name)
              ==> ValueOf(environ, name) == environ[i].1
  {
    if environ != [] && environ[0].0 != name {
      ValueOfExact(environ[1..], name);
      forall i | 0 <= i < |environ| && environ[i].0 == name && (forall j :: 0 <= j < i ==> environ[j].0 != name)
        ensures ValueOf(environ, name) == environ[i].1
      {
        assert environ[1..][i - 1] == environ[i];
        assert forall j :: 0 <= j < i - 1 ==> environ[1..][j] == environ[j + 1];
      }
      if forall i :: 0 <= i < |environ| ==> environ[i].0 != name {
        assert forall i :: 0 <= i < |environ[1..]| ==> environ[1..][i] == environ[i + 1];
      }
    }
  }

  /** The numbered variables' values, keyed by number. */
  method NumberedKeys(prefix: string, environ: Environ) returns (numbered: map<nat, string>)
    ensures numbered == Numbered(environ, prefix) && "" !in numbered.Values
  {
    numbered := map[];
    for i := 0 to |environ|
      invariant numbered == Numbered(environ[..i], prefix)
      invariant "" !in numbered.Values
    {
      assert environ[..i + 1][..i] == environ[..i];
      var n := NumberAfter(prefix, environ[i].0);
      if n.Some? {
        var val := Strip(environ[i].1);
        if val != "" {
          numbered := numbered[n.value := val];
        }
      }
    }
    assert environ[..|environ|] == environ;
  }

  method DiscoverKeys(prefix: string, environ: Environ) returns (found: seq<string>)
    ensures found == Discovered(prefix, environ)
    ensures NoDuplicates(found) && "" !in found
  {
    found := [];
    var base := Strip(ValueOf(environ, prefix));
    if base != "" {
      found := found + [base];
    }
    ghost var first := found;
    assert first == Distinct(first) by {
      if base != "" { assert [base][..0] == []; }
    }
    var numbered := NumberedKeys(prefix, environ);
    NumbersBelow(environ, prefix);
    found := MergeInOrder(found, numbered, Beyond(environ, prefix));
    DistinctIsDistinct(first + ByNumber(numbered, Beyond(environ, prefix)));
    ByNumberValues(numbered, Beyond(environ, prefix));
  }

  method Least(s: set<nat>) returns (n: nat)
    requires s != {}
    ensures n in s && forall m :: m in s ==> n <= m
  {
    ghost var some :| some in s;
    LeastExists(s, some);
    n :| n in s && forall m :: m in s ==> n <= m;
  }

  /** Append the numbered values in numeric order, skipping the ones already there. */
  method MergeInOrder(first: seq<string>, numbered: map<nat, string>, ghost beyond: nat) returns (found: seq<string>)
    requires first == Distinct(first) && forall n :: n in numbered ==> n < beyond
    ensures found == Distinct(first + ByNumber(numbered, beyond))
  {
    found := first;
    var rest := numbered.Keys;
    ghost var done: nat := 0;
    assert first + ByNumber(numbered, 0) == first;
    while rest != {}
      invariant rest <= numbered.Keys
      invariant forall n :: n in numbered ==> (n in rest <==> n >= done)
      invariant found == Distinct(first + ByNumber(numbered, done))
      decreases rest
    {
      var n := Least(rest);
      var val := numbered[n];
      NextByNumber(first, numbered, done, n);
      if val !in found {
        found := found + [val];
      }
      rest := rest - {n};
      done := n + 1;
    }
    SameByNumber(numbered, done, beyond);
  }

  // ---------------------------------------------------------------- one provider's ring of keys

  datatype Key = Key(value: string, cooldownUntil: real, errors: nat, status: KeyStatus)

  datatype Ring = Ring(keys: seq<Key>, counter: nat)

  predicate Usable(k: Key, now: real) {
    k.cooldownUntil <= now
  }

  ghost predicate DistinctValues(keys: seq<Key>) {
    forall i, j :: 0 <= i < j < |keys| ==> keys[i].value != keys[j].value
  }

  ghost predicate ValidRing(r: Ring) {
    r.counter < |r.keys| && DistinctValues(r.keys)
  }

  function Slot(r: Ring, offset: nat): nat
    requires r.keys != []
  {
    (r.counter + offset) % |r.keys|
  }

  /** `i` is the first usable key in cyclic order from the counter. */
  ghost predicate FirstUsable(r: Ring, now: real, i: nat) {
    && i < |r.keys|
    && Usable(r.keys[i], now)
    && exists offset: nat :: offset < |r.keys| && Slot(r, offset) == i &&
                             forall o: nat :: o < offset ==> !Usable(r.keys[Slot(r, o)], now)
  }

  ghost predicate NoneUsable(r: Ring, now: real) {
    forall i :: 0 <= i < |r.keys| ==> !Usable(r.keys[i], now)
  }

  ghost function Scan(r: Ring, now: real, offset: nat): Option<nat>
    requires offset <= |r.keys|
    decreases |r.keys| - offset
  {
    if offset == |r.keys| then None
    else if Usable(r.keys[Slot(r, offset)], now) then Some(Slot(r, offset))
    else Scan(r, now, offset + 1)
  }

  ghost function Advance(r: Ring, i: nat): Ring
    requires r.keys != []
  {
    Ring(r.keys, (i + 1) % |r.keys|)
  }

  function Failed(k: Key, now: real, f: Failure): Key {
    Key(k.value, now + CooldownFor(f), k.errors + 1, StatusFor(f))
  }

  function Cleared(k: Key): Key {
    Key(k.value, 0.0, 0, Available)
  }

  /** The first key with this value, or the number of keys. */
  ghost function IndexOf(keys: seq<Key>, value: string): nat {
    if keys == [] || keys[0].value == value then 0 else 1 + IndexOf(keys[1..], value)
  }

  ghost function Replace(r: Ring, value: string, update: Key -> Key): Ring {
    var i := IndexOf(r.keys, value);
    if i < |r.keys| then Ring(r.keys[i := update(r.keys[i])], r.counter) else r
  }

  datatype Event = Get(now: real) | Failing(value: string, now: real, f: Failure) | Succeeding(value: string)

  ghost function Step(r: Ring, e: Event): (Ring, Option<nat>)
    requires r.keys != []
  {
    match e
    case Get(now) =>
      (match Scan(r, now, 0)
       case None => (r, None)
       case Some(i) => (Advance(r, i), Some(i)))
    case Failing(value, now, f) => (Replace(r, value, k => Failed(k, now, f)), None)
    case Succeeding(value) => (Replace(r, value, k => Cleared(k)), None)
  }

  // ---------------------------------------------------------------- the scan

  lemma WrapsOnce(x: nat, n: nat)
    requires 0 < n <= x < 2 * n
    ensures x % n == x - n
  {
    var q := x / n;
    assert x == q * n + x % n;
    AtLeastDouble(q, n);
  }

  lemma Wraps(x: nat, n: nat)
    requires x < 2 * n
    ensures x % n == if x < n then x else x - n
  {
    if x >= n {
      WrapsOnce(x, n);
    }
  }

  lemma AtLeastDouble(q: nat, n: nat)
    ensures q >= 2 ==> q * n >= 2 * n
  {
    if q >= 2 {
      assert q * n == (q - 2) * n + 2 * n;
    }
  }

  lemma SlotsCover(r: Ring, i: nat) returns (offset: nat)
    requires r.counter < |r.keys| && i < |r.keys|
    ensures offset < |r.keys| && Slot(r, offset) == i
  {
    offset := Distance(r, i);
    DistanceIsOffset(r, i);
  }

  /** How many slots the counter is behind key i. */
  ghost function Distance(r: Ring, i: nat): nat
    requires r.counter < |r.keys| && i < |r.keys|
  {
    Behind(r.counter, |r.keys|, i)
  }

  ghost function Behind(counter: nat, n: nat, i: nat): nat
    requires counter < n && i < n
  {
    if i >= counter then i - counter else i + n - counter
  }

  lemma DistanceIsOffset(r: Ring, i: nat)
    requires r.counter < |r.keys| && i < |r.keys|
    ensures Distance(r, i) < |r.keys| && Slot(r, Distance(r, i)) == i
  {
    Wraps(r.counter + Distance(r, i), |r.keys|);
  }

  lemma SlotDistance(r: Ring, offset: nat)
    requires r.counter < |r.keys| && offset < |r.keys|
    ensures Distance(r, Slot(r, offset)) == offset
  {
    Wraps(r.counter + offset, |r.keys|);
  }

  lemma {:induction false} ScanFinds(r: Ring, now: real, from: nat)
    requires r.counter < |r.keys| && from <= |r.keys|
    requires forall o: nat :: o < from ==> !Usable(r.keys[Slot(r, o)], now)
    ensures match Scan(r, now, from)
            case Some(i) => FirstUsable(r, now, i) &&
                forall o: nat :: o < Distance(r, i) ==> !Usable(r.keys[Slot(r, o)], now)
            case None => NoneUsable(r, now)
    decreases |r.keys| - from
  {
    if from == |r.keys| {
      forall i | 0 <= i < |r.keys| ensures !Usable(r.keys[i], now) {
        var o := SlotsCover(r, i);
      }
    } else if Usable(r.keys[Slot(r, from)], now) {
      SlotDistance(r, from);
    } else {
      ScanFinds(r, now, from + 1);
    }
  }

  lemma AdvanceMovesOn(r: Ring, i: nat, k: nat)
    requires r.counter < |r.keys| && i < |r.keys| && k < |r.keys|
    requires Distance(r, i) <= Distance(r, k)
    ensures Advance(r, i).counter < |r.keys|
    ensures i != k ==> Distance(Advance(r, i), k) + Distance(r, i) + 1 == Distance(r, k)
    ensures i == k ==> Distance(Advance(r, i), k) == |r.keys| - 1
  {
    NextSlot(i, |r.keys|);
    DistanceBehind(r.counter, |r.keys|, i, k, Advance(r, i).counter);
  }

  lemma NextSlot(i: nat, n: nat)
    requires i < n
    ensures (i + 1) % n == if i + 1 < n then i + 1 else 0
  {
  }

  /** The distances of slots i and k before and after the counter moves past i. */
  lemma DistanceBehind(counter: nat, n: nat, i: nat, k: nat, next: nat)
    requires counter < n && i < n && k < n && next == (if i + 1 < n then i + 1 else 0)
    requires Behind(counter, n, i) <= Behind(counter, n, k)
    ensures i != k ==> Behind(next, n, k) + Behind(counter, n, i) + 1 == Behind(counter, n, k)
    ensures i == k ==> Behind(next, n, k) == n - 1
  {
  }

  // ---------------------------------------------------------------- runs

  ghost function After(r: Ring, es: seq<Event>): Ring
    requires r.keys != []
    decreases es
  {
    if es == [] then r else After(Step(r, es[0]).0, es[1..])
  }

  ghost function Gets(es: seq<Event>): nat {
    if es == [] then 0 else (if es[0].Get? then 1 else 0) + Gets(es[1..])
  }

  /** How often the run returns key k. */
  ghost function Uses(r: Ring, es: seq<Event>, k: nat): nat
    requires r.keys != []
    decreases es
  {
    if es == [] then 0
    else (if Step(r, es[0]).1 == Some(k) then 1 else 0) + Uses(Step(r, es[0]).0, es[1..], k)
  }

  /** Key k is usable at every get of the run. */
  ghost predicate StaysUsable(r: Ring, es: seq<Event>, k: nat)
    requires r.keys != []
    decreases es
  {
    es == [] ||
    ((es[0].Get? ==> k < |r.keys| && Usable(r.keys[k], es[0].now)) && StaysUsable(Step(r, es[0]).0, es[1..], k))
  }

  lemma GetStep(r: Ring, now: real, k: nat)
    requires r.counter < |r.keys| && k < |r.keys| && Usable(r.keys[k], now)
    ensures Step(r, Get(now)).1.Some?
    ensures var i := Step(r, Get(now)).1.value;
            i < |r.keys| && Step(r, Get(now)).0 == Advance(r, i) && Distance(r, i) <= Distance(r, k)
  {
    ScanFinds(r, now, 0);
    DistanceIsOffset(r, k);
  }

  /** Bounded waiting: a key that stays usable is returned within |keys| gets. */
  lemma {:induction false} BoundedWaiting(r: Ring, es: seq<Event>, k: nat)
    requires r.counter < |r.keys| && k < |r.keys|
    requires StaysUsable(r, es, k) && Gets(es) > Distance(r, k)
    ensures Uses(r, es, k) >= 1
    decreases es
  {
    if es[0].Get? {
      GetStep(r, es[0].now, k);
      var i := Step(r, es[0]).1.value;
      AdvanceMovesOn(r, i, k);
      if i != k {
        BoundedWaiting(Advance(r, i), es[1..], k);
      }
    } else {
      BoundedWaiting(Step(r, es[0]).0, es[1..], k);
    }
  }

  lemma BoundedWaitingN(r: Ring, es: seq<Event>, k: nat)
    requires r.counter < |r.keys| && k < |r.keys|
    requires StaysUsable(r, es, k) && Gets(es) >= |r.keys|
    ensures Uses(r, es, k) >= 1
  {
    DistanceIsOffset(r, k);
    BoundedWaiting(r, es, k);
  }

  ghost predicate AllStayUsable(r: Ring, es: seq<Event>)
    requires r.keys != []
  {
    forall k: nat :: k < |r.keys| ==> StaysUsable(r, es, k)
  }

  lemma AllStayUsableTail(r: Ring, es: seq<Event>)
    requires r.keys != [] && es != [] && AllStayUsable(r, es)
    ensures AllStayUsable(Step(r, es[0]).0, es[1..])
  {
    var r' := Step(r, es[0]).0;
    forall j: nat | j < |r'.keys| ensures StaysUsable(r', es[1..], j) {
      assert StaysUsable(r, es, j);
    }
  }

  /** A get that finds the key under the counter usable. */
  lemma GetAtCounter(r: Ring, now: real, k: nat)
    requires r.counter < |r.keys| && k < |r.keys| && Usable(r.keys[r.counter], now)
    ensures Step(r, Get(now)) == (Advance(r, r.counter), Some(r.counter))
    ensures Advance(r, r.counter).counter < |r.keys|
    ensures Distance(Advance(r, r.counter), k) == (if k == r.counter then |r.keys| else Distance(r, k)) - 1
    ensures Distance(r, k) == 0 <==> k == r.counter
  {
    GetStep(r, now, r.counter);
    AdvanceMovesOn(r, r.counter, k);
  }

  /** With every key usable, m gets use key k either floor or ceiling of m/n times. */
  lemma {:induction false} EvenUse(r: Ring, es: seq<Event>, k: nat)
    requires r.counter < |r.keys| && k < |r.keys| && AllStayUsable(r, es)
    ensures Gets(es) - Distance(r, k) <= |r.keys| * Uses(r, es, k) <= Gets(es) - Distance(r, k) + |r.keys| - 1
    decreases es
  {
    if es != [] {
      var r' := Step(r, es[0]).0;
      AllStayUsableTail(r, es);
      if es[0].Get? {
        assert StaysUsable(r, es, r.counter);
        GetAtCounter(r, es[0].now, k);
      }
      EvenUse(r', es[1..], k);
      OneMore(|r.keys|, Uses(r', es[1..], k));
    }
  }

  lemma OneMore(n: nat, x: nat)
    ensures n * (1 + x) == n + n * x
  {
  }

  /** Fairness: usage counts of two always-usable keys differ by at most one. */
  lemma FairUse(r: Ring, es: seq<Event>, a: nat, b: nat)
    requires r.counter < |r.keys| && a < |r.keys| && b < |r.keys| && AllStayUsable(r, es)
    ensures Uses(r, es, a) <= Uses(r, es, b) + 1
  {
    EvenUse(r, es, a);
    EvenUse(r, es, b);
    DistanceIsOffset(r, a);
    DistanceIsOffset(r, b);
    var n, x, y := |r.keys|, Uses(r, es, a), Uses(r, es, b);
    if x >= y + 2 {
      TwoMoreRounds(n, x, y);
    }
  }

  lemma TwoMoreRounds(n: nat, x: nat, y: nat)
    requires x >= y + 2
    ensures n * x >= n * y + 2 * n
  {
    var extra: nat := x - y - 2;
    assert n * extra >= 0;
    assert n * x == n * extra + n * y + 2 * n;
  }

  // ---------------------------------------------------------------- cooldowns

  /** What a failure costs: seconds of cooldown, and the status the key gets. */
  ghost function Penalty(f: Failure): (real, KeyStatus) {
    match f.code
    case Some(401) => (3600.0, Unauthorized)
    case Some(403) => (3600.0, Unauthorized)
    case Some(429) => (60.0, RateLimited)
    case _ =>
      if f.code.Some? && f.code.value / 100 == 5 then (30.0, Error)
      else if f.errorType in {"timeout", "connection"} then (15.0, Error)
      else (10.0, Error)
  }

  /** How often a key value failed since its last success, and the status its last report left. */
  ghost function Standing(es: seq<Event>, value: string): (nat, KeyStatus) {
    if es == [] then (0, Available)
    else
      var before := Standing(es[..|es| - 1], value);
      match es[|es| - 1]
      case Get(_) => before
      case Failing(v, _, f) => if v == value then (before.0 + 1, Penalty(f).1) else before
      case Succeeding(v) => if v == value then (0, Available) else before
  }

  /** The time before which a key value is blocked, read off the history alone: the end of the
      cooldown of its last reported failure, or 0 if a success was reported after it. */
  ghost function Deadline(es: seq<Event>, value: string): real {
    if es == [] then 0.0
    else
      match es[|es| - 1]
      case Get(_) => Deadline(es[..|es| - 1], value)
      case Failing(v, now, f) => if v == value then now + Penalty(f).0 else Deadline(es[..|es| - 1], value)
      case Succeeding(v) => if v == value then 0.0 else Deadline(es[..|es| - 1], value)
  }

  ghost predicate FreshRing(r: Ring) {
    ValidRing(r) && forall i :: 0 <= i < |r.keys| ==> r.keys[i] == Key(r.keys[i].value, 0.0, 0, Available)
  }

  ghost predicate SameValues(a: Ring, b: Ring) {
    |a.keys| == |b.keys| && forall i :: 0 <= i < |a.keys| ==> a.keys[i].value == b.keys[i].value
  }

  lemma {:induction false} IndexOfFinds(keys: seq<Key>, value: string)
    ensures var i := IndexOf(keys, value);
            i <= |keys| && (i < |keys| ==> keys[i].value == value) && forall j :: 0 <= j < i ==> keys[j].value != value
  {
    if keys != [] && keys[0].value != value {
      IndexOfFinds(keys[1..], value);
    }
  }

  lemma StepKeepsRing(r: Ring, e: Event)
    requires ValidRing(r)
    ensures ValidRing(Step(r, e).0) && SameValues(r, Step(r, e).0)
  {
    match e
    case Get(now) => ScanFinds(r, now, 0);
    case Failing(value, _, _) => IndexOfFinds(r.keys, value);
    case Succeeding(value) => IndexOfFinds(r.keys, value);
  }

  lemma {:induction false} AfterAppend(r: Ring, es: seq<Event>, e: Event)
    requires ValidRing(r)
    ensures ValidRing(After(r, es)) && SameValues(r, After(r, es))
    ensures After(r, es + [e]) == Step(After(r, es), e).0
    decreases es
  {
    if es == [] {
      StepKeepsRing(r, e);
      assert [e][1..] == [];
      assert [] + [e] == [e];
    } else {
      StepKeepsRing(r, es[0]);
      assert (es + [e])[1..] == es[1..] + [e];
      AfterAppend(Step(r, es[0]).0, es[1..], e);
    }
  }

  lemma PenaltyExact(f: Failure)
    ensures Penalty(f) == (CooldownFor(f), StatusFor(f))
  {
  }

  /** Every key's recorded cooldown is the deadline its history gives, and so are its count of
      failures and its status. */
  lemma {:induction false} CooldownIsDeadline(r: Ring, es: seq<Event>, i: nat)
    requires FreshRing(r) && i < |r.keys|
    ensures ValidRing(After(r, es)) && SameValues(r, After(r, es))
    ensures After(r, es).keys[i].cooldownUntil == Deadline(es, r.keys[i].value)
    ensures (After(r, es).keys[i].errors, After(r, es).keys[i].status) == Standing(es, r.keys[i].value)
  {
    if es != [] {
      var p, e := es[..|es| - 1], es[|es| - 1];
      CooldownIsDeadline(r, p, i);
      AfterAppend(r, p, e);
      assert p + [e] == es;
      StepKeepsRing(After(r, p), e);
      KeyAfterStep(After(r, p), e, i);
    }
  }

  /** What one event does to one key. */
  lemma KeyAfterStep(r: Ring, e: Event, i: nat)
    requires ValidRing(r) && i < |r.keys|
    ensures |Step(r, e).0.keys| == |r.keys|
    ensures var k := r.keys[i];
            Step(r, e).0.keys[i] ==
              match e
              case Get(_) => k
              case Failing(v, now, f) =>
                if k.value == v then Key(v, now + Penalty(f).0, k.errors + 1, Penalty(f).1) else k
              case Succeeding(v) => if k.value == v then Key(v, 0.0, 0, Available) else k
  {
    match e
    case Get(_) =>
    case Failing(v, _, f) =>
      IndexOfFinds(r.keys, v);
      PenaltyExact(f);
    case Succeeding(v) => IndexOfFinds(r.keys, v);
  }

  /** A get returns the first key in cyclic order whose deadline has passed, and refuses only
      when no deadline has; so a failed key never comes back before its cooldown ends, unless
      a success report intervenes. */
  lemma GetRespectsDeadlines(r: Ring, es: seq<Event>, now: real)
    requires FreshRing(r)
    ensures ValidRing(After(r, es)) && SameValues(r, After(r, es))
    ensures var q := After(r, es);
            match Step(q, Get(now)).1
            case None => forall i :: 0 <= i < |r.keys| ==> Deadline(es, r.keys[i].value) > now
            case Some(i) =>
              i < |r.keys| && Deadline(es, r.keys[i].value) <= now &&
              (forall o: nat :: o < Distance(q, i) ==> Deadline(es, r.keys[Slot(q, o)].value) > now)
  {
    var q := After(r, es);
    CooldownIsDeadline(r, es, 0);
    ScanFinds(q, now, 0);
    forall i: nat | i < |r.keys| ensures q.keys[i].cooldownUntil == Deadline(es, r.keys[i].value) {
      CooldownIsDeadline(r, es, i);
    }
  }

  /** Without distinct values the deadline is not respected: the failure is recorded on the
      first of two equal keys, and the next get returns the second. */
  lemma DuplicatesDefeatCooldown()
    ensures var k := Key("a", 0.0, 0, Available);
            var failing := Failing("a", 1.0, Failure(None, "timeout"));
            var r := Step(Ring([k, k], 0), failing).0;
            !DistinctValues([k, k]) && Deadline([failing], "a") == 16.0 && Step(r, Get(2.0)).1 == Some(1)
  {
    var k := Key("a", 0.0, 0, Available);
    var failing := Failing("a", 1.0, Failure(None, "timeout"));
    assert [k, k][0].value == [k, k][1].value;
    var r := Step(Ring([k, k], 0), failing).0;
    assert IndexOf([k, k], "a") == 0;
    assert r.keys[0].cooldownUntil == 16.0 && r.keys[1] == k;
    assert Scan(r, 2.0, 0) == Scan(r, 2.0, 1);
    assert Slot(r, 1) == 1;
  }

  // ---------------------------------------------------------------- the manager

  ghost function Values(r: Ring): seq<string> {
    seq(|r.keys|, i requires 0 <= i < |r.keys| => r.keys[i].value)
  }

  lemma FreshKeysRing(r: Ring, values: seq<string>)
    requires |r.keys| == |values| && r.counter < |r.keys| && NoDuplicates(values)
    requires forall i :: 0 <= i < |values| ==> r.keys[i] == Key(values[i], 0.0, 0, Available)
    ensures FreshRing(r) && Values(r) == values
  {
  }

  lemma FreshRingServesFirst(r: Ring, now: real)
    requires FreshRing(r) && r.counter == 0 && now >= 0.0
    ensures Step(r, Get(now)).1 == Some(0) && Step(r, Get(now)).0.keys == r.keys && Values(r)[0] == r.keys[0].value
  {
    assert Slot(r, 0) == 0;
  }

  class KeyUsageRecord {
    const provider: string
    const value: string
    const index: nat
    var cooldownUntil: real
    var consecutiveErrors: nat
    var status: KeyStatus

    ghost function View(): Key
      reads this
    {
      Key(value, cooldownUntil, consecutiveErrors, status)
    }

    constructor (provider: string, value: string, index: nat)
      ensures View() == Key(value, 0.0, 0, Available) && this.provider == provider && this.index == index
    {
      this.provider := provider;
      this.value := value;
      this.index := index;
      cooldownUntil := 0.0;
      consecutiveErrors := 0;
      status := Available;
    }

    predicate IsAvailable(now: real)
      reads this
      ensures IsAvailable(now) == Usable(View(), now)
    {
      cooldownUntil <= now
    }
  }

  ghost predicate FreshRecords(records: seq<KeyUsageRecord>, values: seq<string>)
    reads records
  {
    |records| == |values| &&
    forall i :: 0 <= i < |records| ==> records[i].View() == Key(values[i], 0.0, 0, Available)
  }

  datatype Answer = Chosen(index: nat, value: string) | UnknownProvider | NoKeysConfigured | AllOnCooldown

  /** The answer reports what the ring's step returned. */
  ghost predicate Answers(a: Answer, r: Ring, got: Option<nat>) {
    match a
    case Chosen(i, value) => got == Some(i) && i < |r.keys| && value == r.keys[i].value
    case AllOnCooldown => got == None
    case _ => false
  }

  datatype Count = Count(total: nat, available: nat, onCooldown: nat)

  ghost function UsableCount(keys: seq<Key>, now: real): nat {
    if keys == [] then 0
    else UsableCount(keys[..|keys| - 1], now) + (if Usable(keys[|keys| - 1], now) then 1 else 0)
  }

  /** The status report counts an available key exactly when a get at that instant succeeds. */
  lemma AvailableMeansServed(r: Ring, now: real)
    requires r.counter < |r.keys|
    ensures UsableCount(r.keys, now) > 0 <==> Step(r, Get(now)).1.Some?
  {
    ScanFinds(r, now, 0);
    CountsUsable(r.keys, now);
  }

  lemma {:induction false} CountsUsable(keys: seq<Key>, now: real)
    ensures UsableCount(keys, now) <= |keys|
    ensures UsableCount(keys, now) == 0 <==> forall i :: 0 <= i < |keys| ==> !Usable(keys[i], now)
  {
    if keys != [] {
      CountsUsable(keys[..|keys| - 1], now);
    }
  }

  class ProviderKeyManager {
    // The environment prefix of every supported provider.
    const prefixes: map<string, string>
    var keys: map<string, seq<KeyUsageRecord>>
    var counters: map<string, nat>
    var loaded: bool

    ghost function Records(): set<KeyUsageRecord>
      reads this
    {
      set p, i | p in keys && 0 <= i < |keys[p]| :: keys[p][i]
    }

    ghost predicate Valid()
      reads this
    {
      && keys.Keys == counters.Keys
      && (forall p :: p in keys ==> counters[p] < |keys[p]|)
      && (forall p, i | p in keys && 0 <= i < |keys[p]| :: keys[p][i].provider == p && keys[p][i].index == i)
    }

    ghost function ViewOf(p: string): Ring
      requires p in keys && p in counters
      reads this, keys[p]
    {
      var ks := keys[p];
      Ring(seq(|ks|, i requires 0 <= i < |ks| reads ks => ks[i].View()), counters[p])
    }

    constructor (prefixes: map<string, string>)
      ensures Valid() && !loaded && this.prefixes == prefixes && keys == map[]
    {
      this.prefixes := prefixes;
      keys, counters, loaded := map[], map[], false;
    }

    /** The keys every supported provider should have. */
    ghost function Wanted(environ: Environ): map<string, seq<string>> {
      map p | p in prefixes :: Discovered(prefixes[p], environ)
    }

    /** Of the given providers, exactly those with a wanted key are configured, each with
        untouched records of its wanted values. */
    ghost predicate LoadedFor(done: set<string>, wanted: map<string, seq<string>>)
      requires Valid() && done <= wanted.Keys
      reads this, Records()
    {
      && (forall p :: p in keys <==> p in done && wanted[p] != [])
      && (forall p :: p in keys ==> counters[p] == 0 && FreshRecords(keys[p], wanted[p]))
    }

    lemma LoadedRingIsFresh(p: string, environ: Environ)
      requires Valid() && p in keys && LoadedFor(prefixes.Keys, Wanted(environ))
      ensures FreshRing(ViewOf(p)) && ViewOf(p).counter == 0
      ensures Values(ViewOf(p)) == Wanted(environ)[p]
    {
      DiscoveredIsDistinct(prefixes[p], environ);
      FreshKeysRing(ViewOf(p), Discovered(prefixes[p], environ));
    }

    method DiscoverAll(environ: Environ) returns (found: map<string, seq<string>>)
      ensures found == Wanted(environ)
    {
      found := map[];
      var rest := prefixes.Keys;
      while rest != {}
        invariant rest <= prefixes.Keys && found == map p | p in prefixes && p !in rest :: Wanted(environ)[p]
      {
        var p :| p in rest;
        var raw := DiscoverKeys(prefixes[p], environ);
        found := found[p := raw];
        rest := rest - {p};
      }
    }

    /** (Re)load every provider's keys; all cooldowns and rotation positions start afresh. */
    method LoadFromEnv(environ: Environ)
      modifies this
      ensures Valid() && loaded && fresh(Records())
      ensures LoadedFor(prefixes.Keys, Wanted(environ))
    {
      var found := DiscoverAll(environ);
      Fill(found);
      loaded := true;
    }

    method Fill(found: map<string, seq<string>>)
      modifies this`keys, this`counters
      ensures Valid() && fresh(Records()) && LoadedFor(found.Keys, found)
    {
      keys, counters := map[], map[];
      var rest := found.Keys;
      ghost var done: set<string> := {};
      while rest != {}
        invariant rest + done == found.Keys && rest !! done
        invariant Valid() && fresh(Records()) && LoadedFor(done, found)
        decreases rest
      {
        var p :| p in rest;
        var records := MakeRecords(p, found[p]);
        Install(p, records, done, found);
        rest, done := rest - {p}, done + {p};
      }
      assert done == found.Keys;
    }

    method Install(p: string, records: seq<KeyUsageRecord>, ghost done: set<string>,
                   ghost wanted: map<string, seq<string>>)
      requires Valid() && done <= wanted.Keys && p in wanted && p !in done
      requires LoadedFor(done, wanted) && FreshRecords(records, wanted[p])
      requires forall i :: 0 <= i < |records| ==> records[i].provider == p && records[i].index == i
      modifies this`keys, this`counters
      ensures Valid() && LoadedFor(done + {p}, wanted)
      ensures forall x :: x in Records() ==> x in old(Records()) || x in records
    {
      if records != [] {
        keys := keys[p := records];
        counters := counters[p := 0];
      }
    }

    static method MakeRecords(provider: string, raw: seq<string>) returns (records: seq<KeyUsageRecord>)
      ensures fresh(set r | r in records) && FreshRecords(records, raw)
      ensures forall i :: 0 <= i < |records| ==> records[i].provider == provider && records[i].index == i
    {
      records := [];
      for i := 0 to |raw|
        invariant fresh(set r | r in records) && FreshRecords(records, raw[..i])
        invariant forall k :: 0 <= k < |records| ==> records[k].provider == provider && records[k].index == k
      {
        var r := new KeyUsageRecord(provider, raw[i], i);
        records := records + [r];
      }
      assert raw[..|raw|] == raw;
    }

    /** `get_key`; `provider` is already lower-cased.  The first call loads the keys. */
    method GetKey(provider: string, now: real, environ: Environ) returns (a: Answer)
      requires Valid()
      modifies this
      ensures Valid() && (loaded || provider !in prefixes)
      ensures a.UnknownProvider? <==> provider !in prefixes
      ensures old(loaded) || a.UnknownProvider? ==> keys == old(keys)
      ensures old(loaded) && provider in prefixes ==> (a.NoKeysConfigured? <==> provider !in keys)
      ensures old(loaded) && provider in prefixes && provider in keys ==>
        var (r, got) := Step(old(ViewOf(provider)), Get(now));
        ViewOf(provider) == r && Answers(a, r, got)
      ensures old(loaded) ==> forall p :: p in keys && p != provider ==> counters[p] == old(counters)[p]
      ensures !old(loaded) && provider in prefixes && now >= 0.0 ==>
        var found := Wanted(environ)[provider];
        a == if found == [] then NoKeysConfigured else Chosen(0, found[0])
    {
      if provider !in prefixes {
        return UnknownProvider;
      }
      if !loaded {
        a := FirstGetKey(provider, now, environ);
        return;
      }
      if provider !in keys {
        return NoKeysConfigured;
      }
      a := Rotate(provider, now);
    }

    method FirstGetKey(provider: string, now: real, environ: Environ) returns (a: Answer)
      requires provider in prefixes
      modifies this
      ensures Valid() && loaded && !a.UnknownProvider?
      ensures now >= 0.0 ==>
        var found := Wanted(environ)[provider];
        a == if found == [] then NoKeysConfigured else Chosen(0, found[0])
    {
      LoadFromEnv(environ);
      if provider !in keys {
        return NoKeysConfigured;
      }
      LoadedRingIsFresh(provider, environ);
      ghost var r := ViewOf(provider);
      a := Rotate(provider, now);
      if now >= 0.0 {
        FreshRingServesFirst(r, now);
      }
    }

    /** The cyclic scan of `get_key`, under the lock. */
    method Rotate(provider: string, now: real) returns (a: Answer)
      requires Valid() && provider in keys
      modifies this`counters
      ensures Valid()
      ensures a.Chosen? || a.AllOnCooldown?
      ensures var (r, got) := Step(old(ViewOf(provider)), Get(now));
              ViewOf(provider) == r && Answers(a, r, got)
      ensures forall p :: p in keys && p != provider ==> counters[p] == old(counters)[p]
    {
      var records := keys[provider];
      var n, start := |records|, counters[provider];
      ghost var r := ViewOf(provider);
      for offset := 0 to n
        invariant counters == old(counters)
        invariant Scan(r, now, 0) == Scan(r, now, offset)
      {
        var idx := (start + offset) % n;
        assert idx == Slot(r, offset);
        if records[idx].IsAvailable(now) {
          counters := counters[provider := (idx + 1) % n];
          return Chosen(idx, records[idx].value);
        }
      }
      return AllOnCooldown;
    }

    method StatusSnapshot(now: real) returns (status: map<string, Count>)
      requires Valid()
      ensures status.Keys == keys.Keys
      ensures forall p :: p in keys ==>
        var usable := UsableCount(ViewOf(p).keys, now);
        status[p].total == |keys[p]| && status[p].available == usable && status[p].onCooldown + usable == |keys[p]|
    {
      status := map[];
      var rest := keys.Keys;
      while rest != {}
        invariant rest <= keys.Keys && status.Keys == keys.Keys - rest
        invariant forall p :: p in status ==>
          var usable := UsableCount(ViewOf(p).keys, now);
          status[p].total == |keys[p]| && status[p].available == usable && status[p].onCooldown + usable == |keys[p]|
      {
        var p :| p in rest;
        rest := rest - {p};
        var records, available := keys[p], 0;
        ghost var views := ViewOf(p).keys;
        for i := 0 to |records|
          invariant available == UsableCount(views[..i], now)
        {
          assert views[..i + 1][..i] == views[..i];
          if records[i].IsAvailable(now) {
            available := available + 1;
          }
        }
        assert views[..|records|] == views;
        CountsUsable(views, now);
        status := status[p := Count(|records|, available, |records| - available)];
      }
    }

    method ReportError(provider: string, keyValue: string, now: real, f: Failure)
      requires Valid()
      modifies Records()
      ensures Valid()
      ensures provider in keys ==> ViewOf(provider) == Step(old(ViewOf(provider)), Failing(keyValue, now, f)).0
      ensures forall p :: p in keys && p != provider ==> ViewOf(p) == old(ViewOf(p))
    {
      var cooldown := CooldownFor(f);
      var newStatus := StatusFor(f);
      var records := if provider in keys then keys[provider] else [];
      ghost var r := if provider in keys then ViewOf(provider) else Ring([], 0);
      for i := 0 to |records|
        invariant forall x :: x in Records() ==> x.View() == old(x.View())
        invariant provider in keys ==> IndexOf(r.keys, keyValue) == i + IndexOf(r.keys[i..], keyValue)
      {
        if records[i].value == keyValue {
          records[i].cooldownUntil := now + cooldown;
          records[i].consecutiveErrors := records[i].consecutiveErrors + 1;
          records[i].status := newStatus;
          assert IndexOf(r.keys, keyValue) == i;
          assert records[i].View() == Failed(r.keys[i], now, f);
          break;
        }
      }
    }

    method ReportSuccess(provider: string, keyValue: string)
      requires Valid()
      modifies Records()
      ensures Valid()
      ensures provider in keys ==> ViewOf(provider) == Step(old(ViewOf(provider)), Succeeding(keyValue)).0
      ensures forall p :: p in keys && p != provider ==> ViewOf(p) == old(ViewOf(p))
    {
      var records := if provider in keys then keys[provider] else [];
      ghost var r := if provider in keys then ViewOf(provider) else Ring([], 0);
      for i := 0 to |records|
        invariant forall x :: x in Records() ==> x.View() == old(x.View())
        invariant provider in keys ==> IndexOf(r.keys, keyValue) == i + IndexOf(r.keys[i..], keyValue)
      {
        if records[i].value == keyValue {
          records[i].cooldownUntil := 0.0;
          records[i].consecutiveErrors := 0;
          records[i].status := Available;
          assert IndexOf(r.keys, keyValue) == i;
          assert records[i].View() == Cleared(r.keys[i]);
          break;
        }
      }
    }
  }
}
