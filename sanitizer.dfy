/**
 * The SQL sanitiser of the pipeline (`clean_sql` in app/agent.py).
 *
 * The generated text is passed through a regular-expression substitution
 * with the pattern "```sql|```" and the empty replacement, and the result is
 * stripped of surrounding whitespace. The substitution is modelled as the
 * scan the regular-expression engine performs: left to right, one match at
 * a time, never overlapping, trying the alternative "```sql" before "```" at
 * every position, case-sensitively. `strip()` without arguments removes the
 * characters for which Python's `str.isspace` holds from both ends.
 */
module Sanitizer {

  /** The bare code fence, the second alternative of the pattern. */
  const Fence: string := "```"

  /** The fence with its language tag, the first alternative of the pattern. */
  const SqlFence: string := "```sql"

  /** Python's `str.isspace` on one character: the ASCII controls 9 to 13 and
      28 to 31, the space, and the Unicode separators and spaces. */
  predicate IsSpace(c: char) {
    || ('\t' <= c <= '\r')
    || ('\U{1C}' <= c <= ' ')
    || c == '\U{85}'
    || c == '\U{A0}'
    || c == '\U{1680}'
    || ('\U{2000}' <= c <= '\U{200A}')
    || c == '\U{2028}'
    || c == '\U{2029}'
    || c == '\U{202F}'
    || c == '\U{205F}'
    || c == '\U{3000}'
  }

  /** A bare fence "```" starts at index `i` of `s`. */
  predicate FenceAt(s: string, i: int) {
    0 <= i && i + 3 <= |s| && s[i] == '`' && s[i + 1] == '`' && s[i + 2] == '`'
  }

  /** `s` holds the substring "```" somewhere. */
  predicate ContainsFence(s: string) {
    exists i | 0 <= i < |s| :: FenceAt(s, i)
  }

  /** `a` is `b` with some of its characters deleted, the rest kept in order. */
  predicate IsSubsequence(a: string, b: string)
    decreases |b|
  {
    || a == []
    || (b != [] && ((a[0] == b[0] && IsSubsequence(a[1..], b[1..])) || IsSubsequence(a, b[1..])))
  }

  // ---------------------------------------------------------------------------
  // The substitution re.sub(r"```sql|```", "", s)
  // ---------------------------------------------------------------------------

  /** Length of the match of the pattern at the start of `s`, 0 if there is
      none: "```sql" is tried first, then "```". */
  function MatchLength(s: string): (n: nat)
    ensures n == 0 || n == |Fence| || n == |SqlFence|
    ensures n <= |s|
    ensures n > 0 <==> FenceAt(s, 0)
  {
    if SqlFence <= s then |SqlFence|
    else if Fence <= s then |Fence|
    else 0
  }

  /** Deletes every match of the pattern, scanning left to right; scanning
      resumes just after a match, and an unmatched character is kept. Only
      whole fences are deleted, so the length drops by a multiple of three. */
  function RemoveFences(s: string): (r: string)
    ensures |r| <= |s|
    ensures (|s| - |r|) % 3 == 0
    decreases |s|
  {
    if s == [] then []
    else
      var n := MatchLength(s);
      if n > 0 then RemoveFences(s[n..]) else [s[0]] + RemoveFences(s[1..])
  }

  // ---------------------------------------------------------------------------
  // str.strip()
  // ---------------------------------------------------------------------------

  /** Drops leading whitespace: the result is a suffix of `s`, everything
      dropped is whitespace, and the result does not start with whitespace. */
  function TrimStart(s: string): (r: string)
    ensures |r| <= |s| && r == s[|s| - |r|..]
    ensures forall i :: 0 <= i < |s| - |r| ==> IsSpace(s[i])
    ensures r == [] || !IsSpace(r[0])
    decreases |s|
  {
    if s != [] && IsSpace(s[0]) then TrimStart(s[1..]) else s
  }

  /** Drops trailing whitespace: the result is a prefix of `s`, everything
      dropped is whitespace, and the result does not end with whitespace. */
  function TrimEnd(s: string): (r: string)
    ensures |r| <= |s| && r == s[..|r|]
    ensures forall i :: |r| <= i < |s| ==> IsSpace(s[i])
    ensures r == [] || !IsSpace(r[|r| - 1])
    decreases |s|
  {
    if s != [] && IsSpace(s[|s| - 1]) then TrimEnd(s[..|s| - 1]) else s
  }

  /** Python's `str.strip()` without arguments. */
  function Strip(s: string): (r: string)
    ensures |r| <= |s|
    ensures r == [] || (!IsSpace(r[0]) && !IsSpace(r[|r| - 1]))
  {
    TrimEnd(TrimStart(s))
  }

  /** `clean_sql`: delete the fences, then strip. The result holds no fence,
      has no surrounding whitespace and is no longer than the input. */
  function CleanSql(raw: string): (r: string)
    ensures !ContainsFence(r)
    ensures r == [] || (!IsSpace(r[0]) && !IsSpace(r[|r| - 1]))
    ensures |r| <= |raw|
  {
    var body := RemoveFences(raw);
    RemoveFencesLeavesNoFence(raw);
    StripKeepsNoFence(body);
    Strip(body)
  }

  // ---------------------------------------------------------------------------
  // Lemmas about the substitution
  // ---------------------------------------------------------------------------

  /** An unmatched first character is kept, and scanning goes on after it. */
  lemma KeptHead(s: string)
    requires s != [] && !FenceAt(s, 0)
    ensures RemoveFences(s) == [s[0]] + RemoveFences(s[1..])
  {
  }

  /** The language tag is deleted together with its fence: "```sql" wins
      over "```" at the same position. */
  lemma SqlFenceRemovedWhole(t: string)
    ensures RemoveFences(SqlFence + t) == RemoveFences(t)
  {
  }

  /** A bare fence not followed by "sql" is deleted on its own. */
  lemma BareFenceRemoved(t: string)
    requires !("sql" <= t)
    ensures RemoveFences(Fence + t) == RemoveFences(t)
  {
    var s := Fence + t;
    assert s[|Fence|..] == t;
    assert !(SqlFence <= s);
    assert Fence <= s;
  }

  /** A fence at index `i` of a suffix is a fence at index `k + i` of the
      whole string, and conversely. */
  lemma FenceAtSuffix(s: string, k: nat, i: int)
    requires k <= |s| && 0 <= i
    ensures FenceAt(s[k..], i) <==> FenceAt(s, k + i)
  {
  }

  /** A character that is not a backtick always survives at the front. */
  lemma NonBacktickHeadKept(s: string)
    requires s != [] && s[0] != '`'
    ensures RemoveFences(s) != [] && RemoveFences(s)[0] == s[0]
  {
  }

  /** A kept backtick is never directly followed by a deleted fence, so
      when the scan finds no match at the front, the output does not start
      with "```" either. */
  lemma NoFenceAtFront(s: string)
    requires s != [] && !FenceAt(s, 0)
    ensures !FenceAt(RemoveFences(s), 0)
  {
    KeptHead(s);
    var rest := s[1..];
    var tail := RemoveFences(rest);
    if s[0] == '`' && rest != [] {
      if rest[0] != '`' {
        NonBacktickHeadKept(rest);
      } else if |rest| == 1 {
        KeptHead(rest);
        assert tail == [rest[0]];
      } else {
        assert rest[1] == s[2] != '`';
        KeptHead(rest);
        NonBacktickHeadKept(rest[1..]);
        assert tail[1] == rest[1];
      }
    }
  }

  /** No "```" survives the substitution: a run of kept backticks is a run
      of the input, which the scan would have matched if it were three long. */
  lemma {:induction false} RemoveFencesLeavesNoFence(s: string)
    ensures !ContainsFence(RemoveFences(s))
    decreases |s|
  {
    if s == [] {
    } else if MatchLength(s) > 0 {
      RemoveFencesLeavesNoFence(s[MatchLength(s)..]);
    } else {
      var tail := RemoveFences(s[1..]);
      RemoveFencesLeavesNoFence(s[1..]);
      var r := RemoveFences(s);
      KeptHead(s);
      assert r[1..] == tail;
      forall i | 0 <= i < |r|
        ensures !FenceAt(r, i)
      {
        if i == 0 {
          NoFenceAtFront(s);
        } else {
          FenceAtSuffix(r, 1, i - 1);
        }
      }
    }
  }

  /** Text without "```" passes through the substitution unchanged. */
  lemma {:induction false} RemoveFencesFixpoint(s: string)
    requires !ContainsFence(s)
    ensures RemoveFences(s) == s
    decreases |s|
  {
    if s != [] {
      KeptHead(s);
      forall i | 0 <= i < |s| - 1
        ensures !FenceAt(s[1..], i)
      {
        FenceAtSuffix(s, 1, i);
      }
      RemoveFencesFixpoint(s[1..]);
    }
  }

  /** Deleting characters from the front of `b` keeps the subsequences of the
      remainder subsequences of `b`. */
  lemma {:induction false} SubsequenceOfSuffix(a: string, b: string, k: nat)
    requires k <= |b| && IsSubsequence(a, b[k..])
    ensures IsSubsequence(a, b)
    decreases k
  {
    if k > 0 {
      assert b[1..][k - 1..] == b[k..];
      SubsequenceOfSuffix(a, b[1..], k - 1);
    }
  }

  /** Every string is a subsequence of itself followed by anything. */
  lemma {:induction false} SubsequenceOfExtension(a: string, y: string)
    ensures IsSubsequence(a, a + y)
    decreases |a|
  {
    if a != [] {
      assert (a + y)[1..] == a[1..] + y;
      SubsequenceOfExtension(a[1..], y);
    }
  }

  /** Being a subsequence is transitive. */
  lemma {:induction false} SubsequenceTransitive(a: string, b: string, c: string)
    requires IsSubsequence(a, b) && IsSubsequence(b, c)
    ensures IsSubsequence(a, c)
    decreases |c|
  {
    if a != [] {
      if IsSubsequence(b, c[1..]) {
        SubsequenceTransitive(a, b, c[1..]);
      } else if IsSubsequence(a, b[1..]) {
        SubsequenceTransitive(a, b[1..], c[1..]);
      } else {
        SubsequenceTransitive(a[1..], b[1..], c[1..]);
      }
    }
  }

  /** The substitution only deletes: what remains is the input's characters
      in their original order. */
  lemma {:induction false} RemoveFencesSubsequence(s: string)
    ensures IsSubsequence(RemoveFences(s), s)
    decreases |s|
  {
    if s != [] {
      var n := MatchLength(s);
      if n > 0 {
        RemoveFencesSubsequence(s[n..]);
        SubsequenceOfSuffix(RemoveFences(s), s, n);
      } else {
        RemoveFencesSubsequence(s[1..]);
        var r := RemoveFences(s);
        assert r[0] == s[0] && r[1..] == RemoveFences(s[1..]);
      }
    }
  }

  // ---------------------------------------------------------------------------
  // Lemmas about strip()
  // ---------------------------------------------------------------------------

  /** `strip()` keeps one contiguous slice and removes only whitespace on
      either side of it. */
  lemma StripBounds(s: string) returns (lo: nat, hi: nat)
    ensures lo <= hi <= |s| && Strip(s) == s[lo..hi]
    ensures forall i :: 0 <= i < lo ==> IsSpace(s[i])
    ensures forall i :: hi <= i < |s| ==> IsSpace(s[i])
  {
    var u := TrimStart(s);
    var r := TrimEnd(u);
    lo := |s| - |u|;
    hi := lo + |r|;
    assert u == s[lo..];
    assert r == u[..|r|];
    assert s[lo..][..|r|] == s[lo..hi];
    forall i | hi <= i < |s|
      ensures IsSpace(s[i])
    {
      assert |r| <= i - lo < |u|;
      assert s[i] == u[i - lo];
    }
  }

  /** Stripping twice is stripping once. */
  lemma StripIdempotent(s: string)
    ensures Strip(Strip(s)) == Strip(s)
  {
    var r := Strip(s);
    assert TrimStart(r) == r;
    assert TrimEnd(r) == r;
  }

  /** What `strip()` keeps is a subsequence of its input. */
  lemma StripSubsequence(t: string)
    ensures IsSubsequence(Strip(t), t)
  {
    var lo, hi := StripBounds(t);
    var kept := t[lo..hi];
    SubsequenceOfExtension(kept, t[hi..]);
    assert kept + t[hi..] == t[lo..];
    SubsequenceOfSuffix(kept, t, lo);
  }

  /** A slice of fence-free text is fence-free. */
  lemma SliceKeepsNoFence(t: string, lo: nat, hi: nat)
    requires lo <= hi <= |t| && !ContainsFence(t)
    ensures !ContainsFence(t[lo..hi])
  {
    forall i | 0 <= i < hi - lo
      ensures !FenceAt(t[lo..hi], i)
    {
      if i + 3 <= hi - lo {
        assert t[lo..hi][i] == t[lo + i] && t[lo..hi][i + 1] == t[lo + i + 1] && t[lo..hi][i + 2] == t[lo + i + 2];
        assert !FenceAt(t, lo + i);
      }
    }
  }

  /** Stripping fence-free text leaves it fence-free. */
  lemma StripKeepsNoFence(t: string)
    requires !ContainsFence(t)
    ensures !ContainsFence(Strip(t))
  {
    var lo, hi := StripBounds(t);
    SliceKeepsNoFence(t, lo, hi);
  }

  // ---------------------------------------------------------------------------
  // Lemmas about clean_sql
  // ---------------------------------------------------------------------------

  /** The sanitised SQL is the raw text with characters deleted, never
      rearranged or added. */
  lemma CleanSqlSubsequence(raw: string)
    ensures IsSubsequence(CleanSql(raw), raw)
  {
    var body := RemoveFences(raw);
    RemoveFencesSubsequence(raw);
    StripSubsequence(body);
    SubsequenceTransitive(Strip(body), body, raw);
  }

  /** Text that holds no "```" is only stripped. */
  lemma CleanSqlWithoutFence(raw: string)
    requires !ContainsFence(raw)
    ensures CleanSql(raw) == Strip(raw)
  {
    RemoveFencesFixpoint(raw);
  }

  /** Sanitising is idempotent: a second pass finds no fence to delete and no
      whitespace to strip. */
  lemma CleanSqlIdempotent(raw: string)
    ensures CleanSql(CleanSql(raw)) == CleanSql(raw)
  {
    var once := CleanSql(raw);
    RemoveFencesFixpoint(once);
    StripIdempotent(RemoveFences(raw));
  }

  // ---------------------------------------------------------------------------
  // Examples
  // ---------------------------------------------------------------------------

  /** Text without backticks in front of anything passes through unchanged,
      and the scan goes on after it as if it were not there. */
  lemma {:induction false} NoBacktickPrefixKept(a: string, b: string)
    requires '`' !in a
    ensures RemoveFences(a + b) == a + RemoveFences(b)
    decreases |a|
  {
    if a != [] {
      var ab := a + b;
      assert ab[0] == a[0] && ab[1..] == a[1..] + b;
      KeptHead(ab);
      NoBacktickPrefixKept(a[1..], b);
      calc {
        RemoveFences(ab);
        [a[0]] + RemoveFences(a[1..] + b);
        [a[0]] + (a[1..] + RemoveFences(b));
        { assert a == [a[0]] + a[1..]; }
        a + RemoveFences(b);
      }
    } else {
      assert a + b == b;
    }
  }

  /** A statement wrapped in a tagged fence comes out as the statement
      itself, stripped. */
  lemma TaggedBlockUnwrapped(q: string)
    requires '`' !in q
    ensures CleanSql(SqlFence + q + Fence) == Strip(q)
  {
    assert SqlFence + q + Fence == SqlFence + (q + Fence);
    SqlFenceRemovedWhole(q + Fence);
    NoBacktickPrefixKept(q, Fence);
    assert MatchLength(Fence) == |Fence| && Fence[|Fence|..] == [];
    assert q + [] == q;
  }

  /** An opening fence with another tag than "sql" loses only the fence;
      the tag stays in the statement. */
  lemma OtherTagKept(q: string)
    requires '`' !in q && !("sql" <= q)
    ensures CleanSql(Fence + q) == Strip(q)
  {
    BareFenceRemoved(q);
    NoBacktickPrefixKept(q, []);
    assert q + [] == q;
  }

  /** Stripping removes the newlines around a statement. */
  lemma ExampleStrip(stmt: string)
    requires stmt == "SELECT 1;"
    ensures Strip("\n" + stmt + "\n") == stmt
  {
    var body := "\n" + stmt + "\n";
    assert body[1..] == stmt + "\n";
    assert TrimStart(stmt + "\n") == stmt + "\n";
    assert (stmt + "\n")[..|stmt|] == stmt;
    assert TrimEnd(stmt) == stmt;
  }

  /** "```sql\nSELECT 1;\n```" loses fence, tag and newlines. */
  lemma ExampleTaggedFence(stmt: string)
    requires stmt == "SELECT 1;"
    ensures CleanSql(SqlFence + "\n" + stmt + "\n" + Fence) == stmt
  {
    var body := "\n" + stmt + "\n";
    assert SqlFence + "\n" + stmt + "\n" + Fence == SqlFence + body + Fence;
    TaggedBlockUnwrapped(body);
    ExampleStrip(stmt);
  }

  /** Five backticks: one fence is deleted and two backticks remain. */
  lemma ExampleFiveBackticks()
    ensures CleanSql("`````") == "``"
  {
    var raw := "`````";
    assert MatchLength(raw) == 3;
    assert raw[3..] == "``";
    KeptHead("``");
    KeptHead("`");
    assert RemoveFences(raw) == "``";
  }

  /** Matching is case-sensitive: "```SQL x" loses only the fence, and the
      upper-case tag stays. */
  lemma ExampleUpperCaseTag(q: string)
    requires q == "SQL x"
    ensures CleanSql(Fence + q) == q
  {
    assert q[0] != 's';
    OtherTagKept(q);
    assert Strip(q) == q;
  }
}
