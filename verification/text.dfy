/** Whitespace trimming as performed by `String.prototype.trim`, and the
    notion of a task text: a non-empty string with no whitespace at either end. */
module Text {
  import opened Sequences

  /** The code points ECMAScript counts as WhiteSpace or LineTerminator:
      tab, line feed, vertical tab, form feed, carriage return, space,
      no-break space, the space separators of Unicode category Zs, the line
      and paragraph separators, and the byte order mark. All of them lie in
      the Basic Multilingual Plane, so each is one UTF-16 code unit. */
  predicate IsWs(c: char): (b: bool)
    ensures b ==> c as int < 0x1_0000
  {
    || c == '\t' || c == '\n' || c == '\U{B}' || c == '\U{C}' || c == '\r'
    || c == ' ' || c == '\U{A0}' || c == '\U{1680}'
    || ('\U{2000}' <= c <= '\U{200A}')
    || c == '\U{2028}' || c == '\U{2029}' || c == '\U{202F}' || c == '\U{205F}'
    || c == '\U{3000}' || c == '\U{FEFF}'
  }

  predicate AllWs(s: string) {
    forall i :: 0 <= i < |s| ==> IsWs(s[i])
  }

  /** Neither end of `s` is whitespace (vacuously so for the empty string). */
  predicate IsTrimmed(s: string) {
    s == [] || (!IsWs(s[0]) && !IsWs(s[|s| - 1]))
  }

  /** A text the list can hold: what `trim` leaves of a non-blank entry. */
  predicate IsTask(s: string) {
    s != [] && IsTrimmed(s)
  }

  predicate AllTasks(ts: seq<string>) {
    forall i :: 0 <= i < |ts| ==> IsTask(ts[i])
  }

  /** `s.trim()`: `s` with whitespace stripped from both ends, one
      character at a time. The result has no whitespace at either end and
      is empty exactly when `s` is all whitespace; `TrimSplits` and
      `TrimUnique` show it is the middle of `s`. */
  function Trim(s: string): (r: string)
    ensures |r| <= |s|
    ensures IsTrimmed(r)
    ensures r == [] <==> AllWs(s)
    decreases |s|
  {
    if |s| > 0 && IsWs(s[0]) then
      var r := Trim(s[1..]);
      assert AllWs(s[1..]) ==> AllWs(s) by {
        if AllWs(s[1..]) {
          forall i | 1 <= i < |s| ensures IsWs(s[i]) {
            assert s[i] == s[1..][i - 1];
          }
        }
      }
      r
    else if |s| > 0 && IsWs(s[|s| - 1]) then
      var r := Trim(s[..|s| - 1]);
      assert !AllWs(s[..|s| - 1]) by {
        if |s| > 1 {
          assert s[..|s| - 1][0] == s[0];
        }
      }
      r
    else
      s
  }

  /** What trimming removes is whitespace: `s` is a whitespace prefix, then
      `Trim(s)`, then a whitespace suffix. */
  lemma {:induction false} TrimSplits(s: string) returns (p: string, q: string)
    ensures s == p + Trim(s) + q
    ensures AllWs(p) && AllWs(q)
    decreases |s|
  {
    if |s| > 0 && IsWs(s[0]) {
      var p', q' := TrimSplits(s[1..]);
      assert s == [s[0]] + s[1..] && Trim(s) == Trim(s[1..]);
      p, q := PrependWs(s[0], s[1..], p', Trim(s[1..]), q');
    } else if |s| > 0 && IsWs(s[|s| - 1]) {
      var p', q' := TrimSplits(s[..|s| - 1]);
      assert s == s[..|s| - 1] + [s[|s| - 1]] && Trim(s) == Trim(s[..|s| - 1]);
      p, q := AppendWs(s[..|s| - 1], p', Trim(s[..|s| - 1]), q', s[|s| - 1]);
    } else {
      p, q := [], [];
      assert s == [] + s + [];
    }
  }

  /** A whitespace character in front of a split string joins its prefix. */
  lemma PrependWs(c: char, s: string, p: string, m: string, q: string) returns (p': string, q': string)
    requires IsWs(c) && s == p + m + q && AllWs(p)
    ensures [c] + s == p' + m + q' && AllWs(p') && q' == q
  {
    p', q' := [c] + p, q;
    assert [c] + (p + m + q) == ([c] + p) + m + q;
  }

  /** A whitespace character after a split string joins its suffix. */
  lemma AppendWs(s: string, p: string, m: string, q: string, c: char) returns (p': string, q': string)
    requires IsWs(c) && s == p + m + q && AllWs(q)
    ensures s + [c] == p' + m + q' && AllWs(q') && p' == p
  {
    p', q' := p, q + [c];
    assert (p + m + q) + [c] == p + m + (q + [c]);
  }

  /** Reference characterisation of `trim`: whenever `s` splits into a
      whitespace prefix, a trimmed middle and a whitespace suffix, trimming
      yields exactly that middle. */
  lemma {:induction false} TrimUnique(p: string, m: string, q: string)
    requires AllWs(p) && AllWs(q) && IsTrimmed(m)
    ensures Trim(p + m + q) == m
    decreases |p| + |q|
  {
    var s := p + m + q;
    if p != [] {
      DropFirst(p, m, q);
      TrimUnique(p[1..], m, q);
      assert Trim(s) == Trim(s[1..]);
    } else if m == [] {
      assert s == q;
    } else if q != [] {
      DropLast(p, m, q);
      TrimUnique(p, m, q[..|q| - 1]);
      assert Trim(s) == Trim(s[..|s| - 1]);
    } else {
      assert s == m;
    }
  }

  /** A string already free of surrounding whitespace trims to itself. */
  lemma TrimOfTrimmed(s: string)
    requires IsTrimmed(s)
    ensures Trim(s) == s
  {
    assert [] + s + [] == s;
    TrimUnique([], s, []);
  }

  /** Trimming is idempotent. */
  lemma TrimIdempotent(s: string)
    ensures Trim(Trim(s)) == Trim(s)
  {
    TrimOfTrimmed(Trim(s));
  }

  /** Trimming a non-blank string yields a task text. */
  lemma TrimGivesTask(s: string)
    requires !AllWs(s)
    ensures IsTask(Trim(s))
  {
  }
}
