/**
 * The JavaScript string operations the PEM codec is built from: `replace` with a string pattern,
 * `replace(/\s/g, '')`, `match(/.{1,64}/g)` and `join`.
 */
module Text {
  import opened Results

  // ---------------------------------------------------------------------------------------------
  // First occurrence of a substring: String.prototype.replace(pattern: string, '')

  predicate OccursAt(s: string, pat: string, i: nat) {
    i + |pat| <= |s| && s[i..i + |pat|] == pat
  }

  /** The least index at or after `from` where `pat` occurs in `s`. */
  function IndexOfFrom(s: string, pat: string, from: nat): (r: Option<nat>)
    ensures r.Some? ==> from <= r.value && OccursAt(s, pat, r.value)
    ensures r.Some? ==> forall j: nat :: from <= j < r.value ==> !OccursAt(s, pat, j)
    ensures r.None? ==> forall j: nat :: from <= j ==> !OccursAt(s, pat, j)
    decreases |s| - from
  {
    if from + |pat| > |s| then None
    else if s[from..from + |pat|] == pat then Some(from)
    else IndexOfFrom(s, pat, from + 1)
  }

  /** `s.indexOf(pat)`: the first occurrence of `pat` in `s`, if any. */
  function IndexOf(s: string, pat: string): (r: Option<nat>)
    ensures r.Some? ==> OccursAt(s, pat, r.value) && forall j: nat :: j < r.value ==> !OccursAt(s, pat, j)
    ensures r.None? <==> forall j: nat :: !OccursAt(s, pat, j)
  {
    IndexOfFrom(s, pat, 0)
  }

  /** `s.replace(pat, '')`: deletes the first occurrence of `pat`, and only that one. */
  function RemoveFirst(s: string, pat: string): (r: string)
    ensures (forall j: nat :: !OccursAt(s, pat, j)) ==> r == s
    ensures forall i: nat :: OccursAt(s, pat, i) && (forall j: nat :: j < i ==> !OccursAt(s, pat, j)) ==>
      r == s[..i] + s[i + |pat|..]
    ensures |r| <= |s|
    ensures forall c :: c in r ==> c in s
  {
    match IndexOf(s, pat)
    case None => s
    case Some(i) => s[..i] + s[i + |pat|..]
  }

  /**
   * When the first character of `pat` does not occur in `x`, the first occurrence of `pat` in
   * `x + pat + y` is the one right after `x`.
   */
  lemma RemoveFirstAfter(x: string, pat: string, y: string)
    requires |pat| > 0 && pat[0] !in x
    ensures RemoveFirst(x + pat + y, pat) == x + y
  {
    var s := x + pat + y;
    assert OccursAt(s, pat, |x|) by {
      assert s[|x|..|x| + |pat|] == pat;
    }
    forall j: nat | j < |x| ensures !OccursAt(s, pat, j) {
      assert s[j] == x[j] != pat[0];
      assert j + |pat| <= |s| ==> s[j..j + |pat|][0] == s[j];
    }
    assert s[..|x|] + s[|x| + |pat|..] == x + y;
  }

  /** A string that starts with `pat` loses exactly that prefix. */
  lemma RemoveFirstAtStart(pat: string, y: string)
    ensures RemoveFirst(pat + y, pat) == y
  {
    var s := pat + y;
    assert OccursAt(s, pat, 0) by {
      assert s[0..|pat|] == pat;
    }
    assert s[..0] + s[|pat|..] == y;
  }

  /** When `pat` occurs nowhere before position `k`, the first `k` characters are kept. */
  lemma RemoveFirstKeepsPrefix(s: string, pat: string, k: nat)
    requires k <= |s|
    requires forall i: nat :: i < k ==> !OccursAt(s, pat, i)
    ensures |RemoveFirst(s, pat)| >= k && RemoveFirst(s, pat)[..k] == s[..k]
  {
    match IndexOf(s, pat)
    case None =>
    case Some(i) =>
      assert k <= i;
      assert RemoveFirst(s, pat) == s[..i] + s[i + |pat|..];
  }

  /** A pattern whose first character is absent from `s` does not occur in it. */
  lemma NoOccurrenceWithoutFirstChar(s: string, pat: string)
    requires |pat| > 0 && pat[0] !in s
    ensures forall j: nat :: !OccursAt(s, pat, j)
  {
    forall j: nat | j + |pat| <= |s| ensures !OccursAt(s, pat, j) {
      assert s[j..j + |pat|][0] == s[j];
    }
  }

  // ---------------------------------------------------------------------------------------------
  // Whitespace: replace(/\s/g, '')

  /**
   * The characters `\s` matches: the WhiteSpace and LineTerminator code points of ECMAScript
   * (TAB, VT, FF, SPACE, NBSP, ZWNBSP, the Zs category, LF, CR, LS, PS).
   */
  predicate IsJsWhitespace(c: char) {
    c == '\t' || c == '\U{B}' || c == '\U{C}' || c == ' ' || c == '\U{A0}' || c == '\U{FEFF}'
    || c == '\U{1680}' || ('\U{2000}' <= c <= '\U{200A}') || c == '\U{202F}' || c == '\U{205F}'
    || c == '\U{3000}' || IsLineTerminator(c)
  }

  /** The LineTerminator code points, which `.` in a regular expression does not match. */
  predicate IsLineTerminator(c: char) {
    c == '\n' || c == '\r' || c == '\U{2028}' || c == '\U{2029}'
  }

  predicate NoWhitespace(s: string) {
    forall i :: 0 <= i < |s| ==> !IsJsWhitespace(s[i])
  }

  /** `s.replace(/\s/g, '')`. */
  function RemoveWhitespace(s: string): (r: string)
    ensures NoWhitespace(r)
    ensures forall c :: c in r <==> c in s && !IsJsWhitespace(c)
  {
    if s == [] then []
    else if IsJsWhitespace(s[0]) then RemoveWhitespace(s[1..])
    else [s[0]] + RemoveWhitespace(s[1..])
  }

  lemma {:induction false} RemoveWhitespaceAppend(a: string, b: string)
    ensures RemoveWhitespace(a + b) == RemoveWhitespace(a) + RemoveWhitespace(b)
  {
    if a == [] {
      assert a + b == b;
    } else {
      assert (a + b)[1..] == a[1..] + b;
      RemoveWhitespaceAppend(a[1..], b);
    }
  }

  lemma {:induction false} RemoveWhitespaceOfPlain(s: string)
    requires NoWhitespace(s)
    ensures RemoveWhitespace(s) == s
  {
    if s != [] {
      RemoveWhitespaceOfPlain(s[1..]);
    }
  }

  lemma {:induction false} RemoveWhitespaceOfBlank(s: string)
    requires forall i :: 0 <= i < |s| ==> IsJsWhitespace(s[i])
    ensures RemoveWhitespace(s) == ""
  {
    if s != [] {
      RemoveWhitespaceOfBlank(s[1..]);
    }
  }

  /** Inserting whitespace anywhere leaves the result of the removal unchanged. */
  lemma RemoveWhitespaceIgnoresInsertion(x: string, ws: string, y: string)
    requires forall i :: 0 <= i < |ws| ==> IsJsWhitespace(ws[i])
    ensures RemoveWhitespace(x + ws + y) == RemoveWhitespace(x + y)
  {
    RemoveWhitespaceAppend(x + ws, y);
    RemoveWhitespaceAppend(x, ws);
    RemoveWhitespaceAppend(x, y);
    RemoveWhitespaceOfBlank(ws);
    calc {
      RemoveWhitespace(x + ws + y);
      RemoveWhitespace(x + ws) + RemoveWhitespace(y);
      RemoveWhitespace(x) + RemoveWhitespace(ws) + RemoveWhitespace(y);
      { assert RemoveWhitespace(x) + "" == RemoveWhitespace(x); }
      RemoveWhitespace(x) + RemoveWhitespace(y);
      RemoveWhitespace(x + y);
    }
  }

  /** Whitespace before and after a string is removed with the rest. */
  lemma RemoveWhitespaceOfSurrounded(w1: string, x: string, y: string, w2: string)
    requires forall i :: 0 <= i < |w1| ==> IsJsWhitespace(w1[i])
    requires forall i :: 0 <= i < |w2| ==> IsJsWhitespace(w2[i])
    ensures RemoveWhitespace(w1 + x + (y + w2)) == RemoveWhitespace(x + y)
  {
    assert w1 + x + (y + w2) == w1 + ((x + y) + w2);
    RemoveWhitespaceAppend(w1, (x + y) + w2);
    RemoveWhitespaceAppend(x + y, w2);
    RemoveWhitespaceOfBlank(w1);
    RemoveWhitespaceOfBlank(w2);
    var r := RemoveWhitespace(x + y);
    assert "" + (r + "") == r;
  }

  /** The newline before a line and the two after it are removed with the rest of the whitespace. */
  lemma RemoveWhitespaceAroundLine(body: string)
    ensures RemoveWhitespace("\n" + body + "\n" + "\n") == RemoveWhitespace(body)
  {
    RemoveWhitespaceAppend("\n" + body + "\n", "\n");
    RemoveWhitespaceAppend("\n" + body, "\n");
    RemoveWhitespaceAppend("\n", body);
    assert RemoveWhitespace("\n") == "";
    assert "" + RemoveWhitespace(body) + "" + "" == RemoveWhitespace(body);
  }

  /** The same, for whitespace inserted at position `p` of `u` in `u + v`. */
  lemma RemoveWhitespaceIgnoresSplitInsertion(u: string, p: nat, ws: string, v: string)
    requires p <= |u|
    requires forall i :: 0 <= i < |ws| ==> IsJsWhitespace(ws[i])
    ensures RemoveWhitespace(u[..p] + ws + u[p..] + v) == RemoveWhitespace(u + v)
  {
    assert u[..p] + ws + u[p..] + v == u[..p] + ws + (u[p..] + v);
    assert u + v == u[..p] + (u[p..] + v);
    RemoveWhitespaceIgnoresInsertion(u[..p], ws, u[p..] + v);
  }

  // ---------------------------------------------------------------------------------------------
  // Line wrapping: match(/.{1,64}/g) and join('\n')

  /** The length of the run of non-terminator characters at the start of `s`, capped at `max`. */
  function LeadingRun(s: string, max: nat): (k: nat)
    ensures k <= max && k <= |s|
    ensures forall i :: 0 <= i < k ==> !IsLineTerminator(s[i])
    ensures k < max && k < |s| ==> IsLineTerminator(s[k])
  {
    if max == 0 || s == [] || IsLineTerminator(s[0]) then 0
    else 1 + LeadingRun(s[1..], max - 1)
  }

  /**
   * The successive matches of the global expression /.{1,64}/ in `s`: at each position a line
   * terminator matches nothing and is skipped; otherwise the greedy match takes up to 64
   * characters before the next line terminator.
   */
  function MatchAll64(s: string): (lines: seq<string>)
    ensures forall i :: 0 <= i < |lines| ==> 1 <= |lines[i]| <= 64
    decreases |s|
  {
    if s == [] then []
    else if IsLineTerminator(s[0]) then MatchAll64(s[1..])
    else
      var k := LeadingRun(s, 64);
      [s[..k]] + MatchAll64(s[k..])
  }

  /** A string has no match exactly when it holds nothing but line terminators. */
  lemma {:induction false} MatchAll64OfBlank(s: string)
    ensures MatchAll64(s) == [] <==> forall i :: 0 <= i < |s| ==> IsLineTerminator(s[i])
    decreases |s|
  {
    if s != [] && IsLineTerminator(s[0]) {
      MatchAll64OfBlank(s[1..]);
      assert forall i :: 1 <= i < |s| ==> s[i] == s[1..][i - 1];
    }
  }

  /**
   * `s.match(/.{1,64}/g)`: the array of all matches, or null when there are none, which is when
   * `s` holds nothing but line terminators.
   */
  function Match64(s: string): (r: Option<seq<string>>)
    ensures r.Some? ==> |r.value| > 0 && r.value == MatchAll64(s)
    ensures r.None? <==> MatchAll64(s) == []
    ensures r.None? <==> forall i :: 0 <= i < |s| ==> IsLineTerminator(s[i])
  {
    MatchAll64OfBlank(s);
    var lines := MatchAll64(s);
    if lines == [] then None else Some(lines)
  }

  function Concat(lines: seq<string>): string {
    if lines == [] then "" else lines[0] + Concat(lines[1..])
  }

  /**
   * `lines.join(sep)`: the lines with one separator between neighbours; without a separator it is
   * their concatenation.
   */
  function Join(lines: seq<string>, sep: string): (r: string)
    ensures |r| == |Concat(lines)| + (if lines == [] then 0 else (|lines| - 1) * |sep|)
    ensures sep == "" ==> r == Concat(lines)
  {
    if lines == [] then ""
    else if |lines| == 1 then lines[0]
    else lines[0] + sep + Join(lines[1..], sep)
  }

  /** Every line has 1 to 64 characters and all but the last have exactly 64. */
  predicate WrappedAt64(lines: seq<string>) {
    && (forall i :: 0 <= i < |lines| ==> 1 <= |lines[i]| <= 64)
    && (forall i :: 0 <= i < |lines| - 1 ==> |lines[i]| == 64)
  }

  predicate NoLineTerminator(s: string) {
    forall i :: 0 <= i < |s| ==> !IsLineTerminator(s[i])
  }

  /**
   * On a string without line terminators, the matches are consecutive slices of 64 characters and
   * a final shorter one; they concatenate back to the string, and there are none only for "".
   */
  lemma {:induction false} MatchAll64OfPlain(s: string)
    requires NoLineTerminator(s)
    ensures WrappedAt64(MatchAll64(s))
    ensures Concat(MatchAll64(s)) == s
    ensures MatchAll64(s) == [] <==> s == []
  {
    if s != [] {
      var k := LeadingRun(s, 64);
      assert k == if |s| < 64 then |s| else 64;
      MatchAll64OfPlain(s[k..]);
      var rest := MatchAll64(s[k..]);
      assert MatchAll64(s) == [s[..k]] + rest;
      assert ([s[..k]] + rest)[1..] == rest;
      assert s == s[..k] + s[k..];
      if rest != [] {
        assert |s[k..]| > 0;
        assert k == 64;
      }
    }
  }

  /** Removing whitespace from lines joined by "\n" leaves their concatenation without whitespace. */
  lemma {:induction false} RemoveWhitespaceOfJoin(lines: seq<string>)
    ensures RemoveWhitespace(Join(lines, "\n")) == RemoveWhitespace(Concat(lines))
  {
    if |lines| == 1 {
      assert Concat(lines) == lines[0] + Concat(lines[1..]);
      assert lines[0] + "" == lines[0];
    } else if |lines| > 1 {
      RemoveWhitespaceOfJoin(lines[1..]);
      RemoveWhitespaceIgnoresInsertion(lines[0], "\n", Join(lines[1..], "\n"));
      RemoveWhitespaceAppend(lines[0], Join(lines[1..], "\n"));
      RemoveWhitespaceAppend(lines[0], Concat(lines[1..]));
    }
  }

  /** A character that is neither in the lines nor in the separator is not in their join. */
  lemma {:induction false} NotInJoin(lines: seq<string>, sep: string, c: char)
    requires c !in Concat(lines) && c !in sep
    ensures c !in Join(lines, sep)
  {
    if |lines| > 1 {
      NotInJoin(lines[1..], sep, c);
    }
  }
}
