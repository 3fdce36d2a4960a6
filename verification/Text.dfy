/** Python string conventions shared by several components. */
module Text {

  datatype Option<+T> = None | Some(value: T)

  /** `str.isspace` of one character; `str.strip` removes the same characters. */
  predicate IsSpace(c: char) {
    || '\t' <= c <= '\r'
    || '\U{1C}' <= c <= ' '
    || c in {'\U{85}', '\U{A0}', '\U{1680}', '\U{2028}', '\U{2029}', '\U{202F}', '\U{205F}', '\U{3000}'}
    || '\U{2000}' <= c <= '\U{200A}'
  }

  function LStrip(s: string): string {
    if s != [] && IsSpace(s[0]) then LStrip(s[1..]) else s
  }

  function RStrip(s: string): string {
    if s != [] && IsSpace(s[|s| - 1]) then RStrip(s[..|s| - 1]) else s
  }

  function Strip(s: string): string {
    RStrip(LStrip(s))
  }

  /** `s.strip()` is what is left when the whitespace at both ends, and nothing else, is cut off. */
  lemma StripExact(s: string) returns (a: nat, b: nat)
    ensures a <= b <= |s| && Strip(s) == s[a..b] && Blank(s[..a]) && Blank(s[b..])
    ensures a < b ==> !IsSpace(s[a]) && !IsSpace(s[b - 1])
  {
    a := LStripCuts(s);
    b := RStripCuts(LStrip(s));
    b := a + b;
    assert s[a..][..b - a] == s[a..b];
    forall i | 0 <= i < |s[b..]| ensures IsSpace(s[b..][i]) {
      assert s[b..][i] == s[a..][b - a..][i];
    }
    LStripEnds(s);
    assert a < b ==> s[a] == LStrip(s)[0] && s[b - 1] == LStrip(s)[b - a - 1];
  }

  lemma {:induction false} LStripCuts(s: string) returns (a: nat)
    ensures a <= |s| && LStrip(s) == s[a..] && Blank(s[..a])
  {
    a := 0;
    if s != [] && IsSpace(s[0]) {
      a := LStripCuts(s[1..]);
      a := a + 1;
      forall i | 0 <= i < a ensures IsSpace(s[..a][i]) {
        assert i == 0 || s[..a][i] == s[1..][..a - 1][i - 1];
      }
    }
  }

  lemma {:induction false} RStripCuts(s: string) returns (b: nat)
    ensures b <= |s| && RStrip(s) == s[..b] && Blank(s[b..]) && (b > 0 ==> !IsSpace(s[b - 1]))
  {
    b := |s|;
    if s != [] && IsSpace(s[|s| - 1]) {
      var shorter := s[..|s| - 1];
      b := RStripCuts(shorter);
      assert shorter[..b] == s[..b];
      forall i | 0 <= i < |s[b..]| ensures IsSpace(s[b..][i]) {
        assert i == |s[b..]| - 1 || s[b..][i] == shorter[b..][i];
      }
    }
  }

  predicate Blank(s: string) {
    forall i :: 0 <= i < |s| ==> IsSpace(s[i])
  }

  /** `s.strip()` is empty exactly for whitespace-only strings. */
  lemma StripEmptyIff(s: string)
    ensures Strip(s) == [] <==> Blank(s)
  {
    LStripEnds(s);
    RStripEmpty(LStrip(s));
  }

  lemma {:induction false} LStripEnds(s: string)
    ensures Blank(s) <==> LStrip(s) == []
    ensures LStrip(s) != [] ==> !IsSpace(LStrip(s)[0])
  {
    if s != [] && IsSpace(s[0]) {
      LStripEnds(s[1..]);
      if Blank(s[1..]) {
        forall i | 0 <= i < |s| ensures IsSpace(s[i]) {
          assert i == 0 || s[i] == s[1..][i - 1];
        }
      } else {
        var i :| 0 <= i < |s[1..]| && !IsSpace(s[1..][i]);
        assert !IsSpace(s[i + 1]);
      }
    }
  }

  lemma {:induction false} RStripEmpty(s: string)
    requires s != [] ==> !IsSpace(s[0])
    ensures RStrip(s) == [] <==> s == []
  {
    if s != [] && IsSpace(s[|s| - 1]) {
      RStripEmpty(s[..|s| - 1]);
    }
  }

  lemma Associative<T>(a: seq<T>, b: seq<T>, c: seq<T>)
    ensures a + (b + c) == (a + b) + c
  {
  }

  function Concat(parts: seq<string>): string {
    if parts == [] then "" else parts[0] + Concat(parts[1..])
  }

  lemma {:induction false} ConcatAppend(a: seq<string>, b: seq<string>)
    ensures Concat(a + b) == Concat(a) + Concat(b)
  {
    if a == [] {
      assert a + b == b;
    } else {
      assert (a + b)[1..] == a[1..] + b;
      ConcatAppend(a[1..], b);
    }
  }
}
