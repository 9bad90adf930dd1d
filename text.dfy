/** The JavaScript string operations the service relies on: `trim`, the `\s`
    class, ASCII `toLowerCase`, number-to-decimal conversion, `split`, `join`
    and the UTF-16 length that Mongoose's `maxlength` validator compares. */
module Text {

  import opened Common

  /** The characters JavaScript's `trim` removes and `\s` matches
      (WhiteSpace and LineTerminator of ECMAScript). */
  predicate IsSpace(c: char) {
    var n := c as int;
    n == 0x09 || n == 0x0A || n == 0x0B || n == 0x0C || n == 0x0D || n == 0x20
    || n == 0xA0 || n == 0x1680 || (0x2000 <= n <= 0x200A) || n == 0x2028
    || n == 0x2029 || n == 0x202F || n == 0x205F || n == 0x3000 || n == 0xFEFF
  }

  /** `trimStart`: the suffix that remains once the leading whitespace is gone. */
  function TrimStart(s: string): (r: string)
    ensures |r| <= |s| && r == s[|s| - |r|..]
    ensures r == [] || !IsSpace(r[0])
    ensures forall k :: 0 <= k < |s| - |r| ==> IsSpace(s[k])
  {
    if |s| > 0 && IsSpace(s[0]) then TrimStart(s[1..]) else s
  }

  /** `trimEnd`: the prefix that remains once the trailing whitespace is gone. */
  function TrimEnd(s: string): (r: string)
    ensures |r| <= |s| && r == s[..|r|]
    ensures r == [] || !IsSpace(r[|r| - 1])
    ensures forall k :: |r| <= k < |s| ==> IsSpace(s[k])
  {
    if |s| > 0 && IsSpace(s[|s| - 1]) then TrimEnd(s[..|s| - 1]) else s
  }

  /** `String.prototype.trim`. */
  function Trim(s: string): (r: string)
    ensures r == [] || (!IsSpace(r[0]) && !IsSpace(r[|r| - 1]))
  {
    TrimEnd(TrimStart(s))
  }

  /** What `trim` leaves is a slice of the input with only whitespace cut away on
      either side of it. */
  lemma TrimSlice(s: string) returns (lead: nat)
    ensures lead + |Trim(s)| <= |s| && Trim(s) == s[lead..lead + |Trim(s)|]
    ensures forall k :: 0 <= k < lead ==> IsSpace(s[k])
    ensures forall k :: lead + |Trim(s)| <= k < |s| ==> IsSpace(s[k])
  {
    var a := TrimStart(s);
    var r := TrimEnd(a);
    lead := |s| - |a|;
    SuffixAt(s, lead, a, r);
  }

  /** A prefix `r` of the suffix `a` of `s` that starts at `lead`. */
  lemma SuffixAt(s: string, lead: nat, a: string, r: string)
    requires lead <= |s| && a == s[lead..] && |r| <= |a| && r == a[..|r|]
    requires forall k :: |r| <= k < |a| ==> IsSpace(a[k])
    ensures lead + |r| <= |s| && r == s[lead..lead + |r|]
    ensures forall k :: lead + |r| <= k < |s| ==> IsSpace(s[k])
  {
    forall k | lead + |r| <= k < |s| ensures IsSpace(s[k]) {
      assert s[k] == a[k - lead];
    }
  }

  /** A string is its own trim exactly when it neither starts nor ends with whitespace. */
  lemma {:induction false} TrimFixpoint(s: string)
    ensures Trim(s) == s <==> (s == [] || (!IsSpace(s[0]) && !IsSpace(s[|s| - 1])))
  {
    if s == [] {
      assert TrimStart(s) == s;
      assert TrimEnd(s) == s;
    } else if !IsSpace(s[0]) && !IsSpace(s[|s| - 1]) {
      assert TrimStart(s) == s;
      assert TrimEnd(s) == s;
    } else {
      var r := Trim(s);
      assert r == [] || (!IsSpace(r[0]) && !IsSpace(r[|r| - 1]));
    }
  }

  /** Leading whitespace added to a trimmed string is trimmed away again. */
  lemma TrimAfterSpace(t: string)
    requires Trim(t) == t
    ensures Trim(" " + t) == t
  {
    TrimFixpoint(t);
    assert TrimStart(" " + t) == TrimStart(t) by {
      assert (" " + t)[1..] == t;
    }
    if t != [] {
      assert TrimStart(t) == t;
    }
  }

  /** Trimming is idempotent. */
  lemma TrimIdempotent(s: string)
    ensures Trim(Trim(s)) == Trim(s)
  {
    TrimFixpoint(Trim(s));
  }

  /** Whitespace put in front of a trimmed string is trimmed away again. */
  lemma {:induction false} TrimPadded(ws: string, t: string)
    requires forall k :: 0 <= k < |ws| ==> IsSpace(ws[k])
    requires Trim(t) == t
    ensures Trim(ws + t) == t
  {
    TrimFixpoint(t);
    StartPadded(ws, t);
    if t == [] {
      assert ws + t == ws;
    }
  }

  lemma {:induction false} StartPadded(ws: string, t: string)
    requires forall k :: 0 <= k < |ws| ==> IsSpace(ws[k])
    ensures TrimStart(ws + t) == TrimStart(t)
  {
    if ws != [] {
      assert (ws + t)[0] == ws[0] && (ws + t)[1..] == ws[1..] + t;
      StartPadded(ws[1..], t);
    } else {
      assert ws + t == t;
    }
  }

  /** `map(s => s.trim())`. */
  function TrimEach(parts: seq<string>): (r: seq<string>)
    ensures |r| == |parts| && forall k :: 0 <= k < |r| ==> r[k] == Trim(parts[k])
  {
    Map(parts, Trim)
  }

  /** Trimming a list of already trimmed strings changes nothing. */
  lemma TrimEachFixed(parts: seq<string>)
    requires forall k :: 0 <= k < |parts| ==> Trim(parts[k]) == parts[k]
    ensures TrimEach(parts) == parts
  {
    var r := TrimEach(parts);
    forall k | 0 <= k < |r| ensures r[k] == parts[k] {
      assert r[k] == Trim(parts[k]);
    }
  }

  lemma TrimEachCons(a: string, parts: seq<string>)
    ensures TrimEach([a] + parts) == [Trim(a)] + TrimEach(parts)
  {
    var s := [a] + parts;
    assert s[0] == a && s[1..] == parts;
  }

  function LowerChar(c: char): char {
    if 'A' <= c <= 'Z' then (c as int + 32) as char else c
  }

  /** `toLowerCase` on the ASCII letters; every other character is kept. */
  function Lower(s: string): (r: string)
    ensures |r| == |s| && forall k :: 0 <= k < |s| ==> r[k] == LowerChar(s[k])
  {
    seq(|s|, k requires 0 <= k < |s| => LowerChar(s[k]))
  }

  /** `replace(/\s+/g, '-')`: each maximal run of whitespace becomes one hyphen. */
  function CollapseSpaces(s: string): string
    decreases |s|
  {
    if s == [] then []
    else if IsSpace(s[0]) then
      assert |TrimStart(s)| < |s|;
      "-" + CollapseSpaces(TrimStart(s))
    else [s[0]] + CollapseSpaces(s[1..])
  }

  /** A character-by-character reading of the same replacement, as a reference:
      a whitespace character turns into a hyphen when it opens a run
      (`afterSpace` is false) and into nothing when it continues one. */
  function MarkRuns(s: string, afterSpace: bool): string {
    if s == [] then []
    else
      (if !IsSpace(s[0]) then [s[0]] else if afterSpace then [] else "-")
      + MarkRuns(s[1..], IsSpace(s[0]))
  }

  lemma {:induction false} SkipRun(t: string)
    ensures MarkRuns(t, true) == MarkRuns(TrimStart(t), false)
  {
    if t != [] && IsSpace(t[0]) {
      SkipRun(t[1..]);
    }
  }

  /** The run-collapsing replacement agrees with the character-wise reference. */
  lemma {:induction false} CollapseMarksRuns(s: string)
    ensures CollapseSpaces(s) == MarkRuns(s, false)
    decreases |s|
  {
    if s != [] {
      if IsSpace(s[0]) {
        assert |TrimStart(s)| < |s|;
        CollapseMarksRuns(TrimStart(s));
        assert TrimStart(s) == TrimStart(s[1..]);
        SkipRun(s[1..]);
      } else {
        CollapseMarksRuns(s[1..]);
      }
    }
  }

  function DigitChar(d: nat): (c: char)
    requires d < 10
    ensures '0' <= c <= '9'
  {
    ('0' as int + d) as char
  }

  /** `String(n)` for a non-negative integer: its decimal digits, most significant first. */
  function Decimal(n: nat): (r: string)
    ensures |r| >= 1 && (n >= 10 <==> |r| >= 2)
    ensures forall k :: 0 <= k < |r| ==> '0' <= r[k] <= '9'
  {
    if n < 10 then [DigitChar(n)] else Decimal(n / 10) + [DigitChar(n % 10)]
  }

  /** Distinct numbers have distinct decimal forms. */
  lemma {:induction false} DecimalInjective(m: nat, n: nat)
    requires Decimal(m) == Decimal(n)
    ensures m == n
  {
    if m >= 10 && n >= 10 {
      var dm, dn := Decimal(m), Decimal(n);
      assert dm[..|dm| - 1] == Decimal(m / 10) && dn[..|dn| - 1] == Decimal(n / 10);
      assert dm[|dm| - 1] == DigitChar(m % 10) && dn[|dn| - 1] == DigitChar(n % 10);
      DecimalInjective(m / 10, n / 10);
    } else if m < 10 && n < 10 {
      assert Decimal(m)[0] == DigitChar(m);
    }
  }

  /** `s.split(sep)` for a one-character separator. */
  function Split(s: string, sep: char): (parts: seq<string>)
    ensures |parts| == multiset(s)[sep] + 1
    ensures forall k :: 0 <= k < |parts| ==> sep !in parts[k]
    decreases |s|
  {
    var i := IndexOf(s, sep);
    if i == -1 then [s]
    else
      assert s == s[..i] + [sep] + s[i + 1..];
      assert multiset(s)[sep] == multiset(s[..i])[sep] + 1 + multiset(s[i + 1..])[sep];
      [s[..i]] + Split(s[i + 1..], sep)
  }

  /** `parts.join(sep)`. */
  function Join(parts: seq<string>, sep: string): string {
    if |parts| == 0 then ""
    else if |parts| == 1 then parts[0]
    else parts[0] + sep + Join(parts[1..], sep)
  }

  /** Splitting at the first separator of `a + [sep] + b` when `a` holds none. */
  lemma SplitAtFirst(a: string, sep: char, b: string)
    requires sep !in a
    ensures Split(a + [sep] + b, sep) == [a] + Split(b, sep)
  {
    var s := a + [sep] + b;
    var i := IndexOf(s, sep);
    assert s[|a|] == sep;
    assert forall k :: 0 <= k < |a| ==> s[k] == a[k];
    assert i == |a|;
    assert s[..|a|] == a && s[|a| + 1..] == b;
  }

  /** The number of UTF-16 code units of a string: JavaScript's `length`. */
  function Utf16Length(s: string): (n: nat)
    ensures |s| <= n <= 2 * |s|
  {
    if s == [] then 0 else (if s[0] as int >= 0x10000 then 2 else 1) + Utf16Length(s[1..])
  }
}
