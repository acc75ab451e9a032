/**
 * The string helpers the server leans on, written out so that their edge
 * cases are part of the model: boost::split with token compression off and
 * on, boost::trim, boost::to_lower (ASCII, "C" locale) and std::to_string.
 */
module Text {

  /** No character of `s` is one of `seps`. */
  predicate Free(s: string, seps: set<char>) {
    forall i :: 0 <= i < |s| ==> s[i] !in seps
  }

  lemma FreeConcat(a: string, b: string, seps: set<char>)
    requires Free(a, seps) && Free(b, seps)
    ensures Free(a + b, seps)
  {
    assert forall i :: |a| <= i < |a + b| ==> (a + b)[i] == b[i - |a|];
  }

  // ---------------------------------------------------------------------------
  // boost::split(out, s, is_any_of(seps))
  // ---------------------------------------------------------------------------

  /**
   * Every separator character ends a field, so adjacent separators give an
   * empty field and an empty string gives one empty field.
   */
  function Split(s: string, seps: set<char>): (r: seq<string>)
    ensures |r| >= 1
    ensures forall k :: 0 <= k < |r| ==> Free(r[k], seps)
    ensures |r| == 1 <==> Free(s, seps)
  {
    if s == [] then [""]
    else
      var rest := Split(s[1..], seps);
      if s[0] in seps then
        assert !Free(s, seps) by { assert s[0] in seps; }
        [""] + rest
      else
        assert Free(s, seps) <==> Free(s[1..], seps) by {
          if Free(s[1..], seps) {
            forall i | 0 <= i < |s| ensures s[i] !in seps {
              if i > 0 { assert s[i] == s[1..][i - 1]; }
            }
          }
        }
        var first := [s[0]] + rest[0];
        assert Free(first, seps) by {
          forall i | 0 <= i < |first| ensures first[i] !in seps {
            if i > 0 { assert first[i] == rest[0][i - 1]; }
          }
        }
        [first] + rest[1..]
  }

  /** Fields glued back together with one separator between neighbours. */
  function Join(pieces: seq<string>, sep: char): string {
    if |pieces| == 0 then ""
    else if |pieces| == 1 then pieces[0]
    else pieces[0] + [sep] + Join(pieces[1..], sep)
  }

  /** Splitting on a single separator loses nothing: joining the fields gives the input back. */
  lemma {:induction false} JoinSplit(s: string, sep: char)
    ensures Join(Split(s, {sep}), sep) == s
  {
    if s != [] {
      JoinSplit(s[1..], sep);
      var rest := Split(s[1..], {sep});
      if s[0] == sep {
        assert Split(s, {sep}) == [""] + rest;
        assert ([""] + rest)[1..] == rest;
        assert s == [sep] + s[1..];
      } else {
        var first := [s[0]] + rest[0];
        assert Split(s, {sep}) == [first] + rest[1..];
        if |rest| > 1 {
          assert ([first] + rest[1..])[1..] == rest[1..];
          assert Join(rest, sep) == rest[0] + [sep] + Join(rest[1..], sep);
        }
        assert s == [s[0]] + s[1..];
      }
    }
  }

  /** A separator-free prefix is glued onto the first field of what follows it. */
  lemma {:induction false} SplitFree(x: string, tail: string, seps: set<char>)
    requires Free(x, seps)
    ensures Split(x + tail, seps) == [x + Split(tail, seps)[0]] + Split(tail, seps)[1..]
  {
    if x != [] {
      assert Free(x[1..], seps) by {
        forall i | 0 <= i < |x[1..]| ensures x[1..][i] !in seps { assert x[1..][i] == x[i + 1]; }
      }
      SplitFree(x[1..], tail, seps);
      var t := Split(tail, seps);
      var rest := Split(x[1..] + tail, seps);
      assert (x + tail)[1..] == x[1..] + tail;
      assert (x + tail)[0] == x[0] && x[0] !in seps;
      assert Split(x + tail, seps) == [[x[0]] + rest[0]] + rest[1..];
      assert rest[0] == x[1..] + t[0];
      assert rest[1..] == t[1..];
      assert [x[0]] + (x[1..] + t[0]) == x + t[0];
    } else {
      assert x + tail == tail;
      assert x + Split(tail, seps)[0] == Split(tail, seps)[0];
      assert [Split(tail, seps)[0]] + Split(tail, seps)[1..] == Split(tail, seps);
    }
  }

  /** Fields free of the separator come back unchanged from joining and splitting again. */
  lemma {:induction false} SplitJoin(pieces: seq<string>, sep: char)
    requires |pieces| >= 1
    requires forall k :: 0 <= k < |pieces| ==> Free(pieces[k], {sep})
    ensures Split(Join(pieces, sep), {sep}) == pieces
  {
    if |pieces| == 1 {
      SplitFree(pieces[0], "", {sep});
      assert pieces[0] + "" == pieces[0];
    } else {
      SplitJoin(pieces[1..], sep);
      var tail := [sep] + Join(pieces[1..], sep);
      assert Split(tail, {sep}) == [""] + pieces[1..] by {
        assert tail[1..] == Join(pieces[1..], sep);
      }
      SplitFree(pieces[0], tail, {sep});
      assert Join(pieces, sep) == pieces[0] + tail;
      assert Split(tail, {sep})[0] == "" && Split(tail, {sep})[1..] == pieces[1..];
      assert pieces[0] + "" == pieces[0];
      assert pieces == [pieces[0]] + pieces[1..];
    }
  }

  // ---------------------------------------------------------------------------
  // boost::split(out, s, is_any_of(seps), token_compress_on)
  // ---------------------------------------------------------------------------

  /** `s` without its leading run of separators. */
  function SkipSeps(s: string, seps: set<char>): (r: string)
    ensures |r| <= |s| && r == s[|s| - |r|..]
    ensures forall i :: 0 <= i < |s| - |r| ==> s[i] in seps
    ensures r == [] || r[0] !in seps
  {
    if s != [] && s[0] in seps then
      var r := SkipSeps(s[1..], seps);
      assert forall i :: 1 <= i < |s| - |r| ==> s[i] == s[1..][i - 1];
      r
    else s
  }

  /**
   * A run of adjacent separators ends one field; a string splits into one
   * field exactly when it holds no separator.
   */
  function SplitCompressed(s: string, seps: set<char>): (r: seq<string>)
    decreases |s|
    ensures |r| >= 1
    ensures |r| == 1 <==> Free(s, seps)
  {
    if s == [] then [""]
    else if s[0] in seps then
      assert !Free(s, seps) by { assert s[0] in seps; }
      [""] + SplitCompressed(SkipSeps(s, seps), seps)
    else
      var rest := SplitCompressed(s[1..], seps);
      assert Free(s, seps) <==> Free(s[1..], seps) by {
        if Free(s[1..], seps) {
          forall i | 0 <= i < |s| ensures s[i] !in seps {
            if i > 0 { assert s[i] == s[1..][i - 1]; }
          }
        }
      }
      [[s[0]] + rest[0]] + rest[1..]
  }

  /**
   * The fields of a compressed split hold no separator, and only the first
   * and the last can be empty (a leading or a trailing run); the first is
   * not empty when the string does not start with a separator.
   */
  lemma {:induction false} SplitCompressedFields(s: string, seps: set<char>)
    decreases |s|
    ensures forall k :: 0 <= k < |SplitCompressed(s, seps)| ==> Free(SplitCompressed(s, seps)[k], seps)
    ensures forall k :: 0 < k < |SplitCompressed(s, seps)| - 1 ==> SplitCompressed(s, seps)[k] != ""
    ensures s != [] && s[0] !in seps ==> SplitCompressed(s, seps)[0] != ""
  {
    if s != [] {
      var r := SplitCompressed(s, seps);
      if s[0] in seps {
        var rest := SplitCompressed(SkipSeps(s, seps), seps);
        SplitCompressedFields(SkipSeps(s, seps), seps);
        assert r == [""] + rest;
        assert forall k :: 0 < k < |r| ==> r[k] == rest[k - 1];
      } else {
        var rest := SplitCompressed(s[1..], seps);
        SplitCompressedFields(s[1..], seps);
        var first := [s[0]] + rest[0];
        assert r == [first] + rest[1..];
        assert Free(first, seps) by {
          forall i | 0 <= i < |first| ensures first[i] !in seps {
            if i > 0 { assert first[i] == rest[0][i - 1]; }
          }
        }
        assert forall k :: 0 < k < |r| ==> r[k] == rest[k];
      }
    }
  }

  /** A non-separator character is glued onto the first compressed field of what follows it. */
  lemma SplitCompressedCons(c: char, s: string, seps: set<char>)
    requires c !in seps
    ensures SplitCompressed([c] + s, seps)
         == [[c] + SplitCompressed(s, seps)[0]] + SplitCompressed(s, seps)[1..]
  {
    assert ([c] + s)[1..] == s;
  }

  /** A separator-free prefix is glued onto the first compressed field of what follows it. */
  lemma {:induction false} SplitCompressedFree(x: string, tail: string, seps: set<char>)
    requires Free(x, seps)
    ensures SplitCompressed(x + tail, seps)
         == [x + SplitCompressed(tail, seps)[0]] + SplitCompressed(tail, seps)[1..]
  {
    var t := SplitCompressed(tail, seps);
    if x != [] {
      FreeTail(x, seps);
      SplitCompressedFree(x[1..], tail, seps);
      SplitCompressedHead(x, tail, seps);
      GlueFirst(x, t, SplitCompressed(x[1..] + tail, seps));
    } else {
      assert x + tail == tail;
      assert x + t[0] == t[0];
      assert [t[0]] + t[1..] == t;
    }
  }

  lemma FreeTail(x: string, seps: set<char>)
    requires x != [] && Free(x, seps)
    ensures x[0] !in seps && Free(x[1..], seps)
  {
    assert forall i :: 0 <= i < |x[1..]| ==> x[1..][i] == x[i + 1];
  }

  lemma SplitCompressedHead(x: string, tail: string, seps: set<char>)
    requires x != [] && x[0] !in seps
    ensures SplitCompressed(x + tail, seps)
         == [[x[0]] + SplitCompressed(x[1..] + tail, seps)[0]] + SplitCompressed(x[1..] + tail, seps)[1..]
  {
    assert x + tail == [x[0]] + (x[1..] + tail);
    SplitCompressedCons(x[0], x[1..] + tail, seps);
  }

  /** Gluing the head of `x` onto a first field that already holds the rest of `x`. */
  lemma GlueFirst(x: string, t: seq<string>, r: seq<string>)
    requires |x| >= 1 && |t| >= 1 && r == [x[1..] + t[0]] + t[1..]
    ensures [[x[0]] + r[0]] + r[1..] == [x + t[0]] + t[1..]
  {
    assert r[0] == x[1..] + t[0];
    assert r[1..] == t[1..];
    assert [x[0]] + (x[1..] + t[0]) == x + t[0];
  }

  /** A run of separators in front of a field counts as one. */
  lemma {:induction false} SplitCompressedRun(run: string, y: string, seps: set<char>)
    requires run != [] && forall i :: 0 <= i < |run| ==> run[i] in seps
    requires y != [] && y[0] !in seps
    ensures SplitCompressed(run + y, seps) == [""] + SplitCompressed(y, seps)
  {
    assert SkipSeps(run + y, seps) == y by { SkipSepsRun(run, y, seps); }
  }

  lemma {:induction false} SkipSepsRun(run: string, y: string, seps: set<char>)
    requires forall i :: 0 <= i < |run| ==> run[i] in seps
    requires y == [] || y[0] !in seps
    ensures SkipSeps(run + y, seps) == y
  {
    if run != [] {
      assert (run + y)[0] == run[0];
      assert (run + y)[1..] == run[1..] + y;
      SkipSepsRun(run[1..], y, seps);
    } else {
      assert run + y == y;
    }
  }

  /** A separator-free string is a single field. */
  lemma OneWord(c: string, seps: set<char>)
    requires Free(c, seps)
    ensures SplitCompressed(c, seps) == [c]
  {
    SplitCompressedFree(c, "", seps);
    assert c + "" == c;
  }

  /** A separator-free word followed by a separator run starts its own field. */
  lemma WordThenRest(a: string, gap: string, y: string, seps: set<char>)
    requires Free(a, seps)
    requires gap != [] && forall i :: 0 <= i < |gap| ==> gap[i] in seps
    requires y != [] && y[0] !in seps
    ensures SplitCompressed(a + gap + y, seps) == [a] + SplitCompressed(y, seps)
  {
    var rest := SplitCompressed(y, seps);
    SplitCompressedRun(gap, y, seps);
    SplitCompressedFree(a, gap + y, seps);
    assert a + gap + y == a + (gap + y);
    Regroup(a, rest);
  }

  lemma Regroup(a: string, rest: seq<string>)
    ensures [a + ([""] + rest)[0]] + ([""] + rest)[1..] == [a] + rest
  {
    assert ([""] + rest)[1..] == rest;
    assert a + "" == a;
  }

  /**
   * Three separator-free, non-empty words with separator runs between them
   * split into exactly those three words.
   */
  lemma ThreeWords(a: string, gap1: string, b: string, gap2: string, c: string, seps: set<char>)
    requires a != [] && b != [] && c != []
    requires Free(a, seps) && Free(b, seps) && Free(c, seps)
    requires gap1 != [] && forall i :: 0 <= i < |gap1| ==> gap1[i] in seps
    requires gap2 != [] && forall i :: 0 <= i < |gap2| ==> gap2[i] in seps
    ensures SplitCompressed(a + gap1 + b + gap2 + c, seps) == [a, b, c]
  {
    var bc := b + gap2 + c;
    assert SplitCompressed(bc, seps) == [b, c] by {
      OneWord(c, seps);
      WordThenRest(b, gap2, c, seps);
    }
    assert SplitCompressed(a + gap1 + bc, seps) == [a] + SplitCompressed(bc, seps) by {
      assert bc[0] == b[0];
      WordThenRest(a, gap1, bc, seps);
    }
    assert a + gap1 + b + gap2 + c == a + gap1 + bc;
  }

  // ---------------------------------------------------------------------------
  // boost::trim and boost::to_lower
  // ---------------------------------------------------------------------------

  /** std::isspace in the "C" locale: space, \t, \n, \v, \f and \r. */
  predicate IsSpace(c: char) {
    c == ' ' || '\t' <= c <= '\r'
  }

  predicate AllSpace(s: string) {
    forall i :: 0 <= i < |s| ==> IsSpace(s[i])
  }

  /** Neither end of `s` is white space. */
  predicate Trimmed(s: string) {
    s == [] || (!IsSpace(s[0]) && !IsSpace(s[|s| - 1]))
  }

  function TrimLeft(s: string): (r: string)
    ensures |r| <= |s|
  {
    if s != [] && IsSpace(s[0]) then TrimLeft(s[1..]) else s
  }

  function TrimRight(s: string): (r: string)
    ensures |r| <= |s|
  {
    if s != [] && IsSpace(s[|s| - 1]) then TrimRight(s[..|s| - 1]) else s
  }

  /** boost::trim: white space stripped from both ends. */
  function Trim(s: string): (r: string)
    ensures |r| <= |s|
  {
    TrimLeft(TrimRight(s))
  }

  /** TrimLeft drops a run of leading white space and stops at the first other character. */
  lemma {:induction false} TrimLeftSuffix(s: string)
    ensures var r := TrimLeft(s);
            r == s[|s| - |r|..] && AllSpace(s[..|s| - |r|]) && (r == [] || !IsSpace(r[0]))
  {
    if s != [] && IsSpace(s[0]) {
      var r := TrimLeft(s[1..]);
      TrimLeftSuffix(s[1..]);
      assert s[1..][|s| - 1 - |r|..] == s[|s| - |r|..];
      assert forall i :: 1 <= i < |s| - |r| ==> s[i] == s[1..][i - 1];
    }
  }

  /** TrimRight drops a run of trailing white space and stops at the last other character. */
  lemma {:induction false} TrimRightPrefix(s: string)
    ensures var r := TrimRight(s);
            r == s[..|r|] && AllSpace(s[|r|..]) && (r == [] || !IsSpace(r[|r| - 1]))
  {
    if s != [] && IsSpace(s[|s| - 1]) {
      var r := TrimRight(s[..|s| - 1]);
      TrimRightPrefix(s[..|s| - 1]);
      assert s[..|s| - 1][..|r|] == s[..|r|];
      assert forall i :: |r| <= i < |s| - 1 ==> s[i] == s[..|s| - 1][i];
    }
  }

  /** The result of trimming has white space at neither end. */
  lemma TrimTrimmed(s: string)
    ensures Trimmed(Trim(s))
  {
    var right := TrimRight(s);
    var r := TrimLeft(right);
    TrimRightPrefix(s);
    TrimLeftSuffix(right);
    assert r != [] ==> r[|r| - 1] == right[|right| - 1];
  }

  /** Trimming only drops characters, so a separator-free string stays separator-free. */
  lemma TrimFree(s: string, seps: set<char>)
    requires Free(s, seps)
    ensures Free(Trim(s), seps)
  {
    var right := TrimRight(s);
    TrimRightPrefix(s);
    TrimLeftSuffix(right);
    assert forall i :: 0 <= i < |right| ==> right[i] == s[i];
  }

  /** Trimming removes exactly the white space padding around a trimmed core. */
  lemma {:induction false} TrimPadded(pre: string, x: string, post: string)
    requires AllSpace(pre) && AllSpace(post) && Trimmed(x)
    ensures Trim(pre + x + post) == x
  {
    if x == [] {
      assert AllSpace(pre + post);
      TrimRightPadded([], pre + post);
      assert pre + x + post == [] + (pre + post);
    } else {
      TrimRightPadded(pre + x, post);
      TrimLeftPadded(pre, x);
    }
  }

  lemma {:induction false} TrimRightPadded(x: string, post: string)
    requires AllSpace(post) && (x == [] || !IsSpace(x[|x| - 1]))
    ensures TrimRight(x + post) == x
  {
    if post != [] {
      assert (x + post)[..|x + post| - 1] == x + post[..|post| - 1];
      assert IsSpace(post[|post| - 1]);
      TrimRightPadded(x, post[..|post| - 1]);
    } else {
      assert x + post == x;
    }
  }

  lemma {:induction false} TrimLeftPadded(pre: string, x: string)
    requires AllSpace(pre) && (x == [] || !IsSpace(x[0]))
    ensures TrimLeft(pre + x) == x
  {
    if pre != [] {
      assert (pre + x)[1..] == pre[1..] + x;
      assert IsSpace(pre[0]);
      TrimLeftPadded(pre[1..], x);
    } else {
      assert pre + x == x;
    }
  }

  predicate IsUpper(c: char) {
    'A' <= c <= 'Z'
  }

  function LowerChar(c: char): char {
    if IsUpper(c) then (c as int + 32) as char else c
  }

  /** boost::to_lower in the "C" locale: 'A'..'Z' become 'a'..'z', every other character stays. */
  function Lower(s: string): (r: string)
    ensures |r| == |s|
    ensures forall i :: 0 <= i < |r| ==> !IsUpper(r[i]) && !IsSpace(r[i]) == !IsSpace(s[i])
    ensures forall i :: 0 <= i < |s| && !IsUpper(s[i]) ==> r[i] == s[i]
    ensures forall i :: 0 <= i < |s| && IsUpper(s[i]) ==> r[i] as int == s[i] as int + 32
  {
    seq(|s|, i requires 0 <= i < |s| => LowerChar(s[i]))
  }

  predicate NoUpper(s: string) {
    forall i :: 0 <= i < |s| ==> !IsUpper(s[i])
  }

  /** Lowercasing is idempotent: a string without capitals is left alone. */
  lemma LowerIdempotent(s: string)
    requires NoUpper(s)
    ensures Lower(s) == s
  {
  }

  /** Lowercasing never produces a separator that is not a lowercase letter. */
  lemma LowerFree(s: string, seps: set<char>)
    requires Free(s, seps)
    requires forall c :: c in seps ==> !('a' <= c <= 'z')
    ensures Free(Lower(s), seps)
  {
  }

  // ---------------------------------------------------------------------------
  // std::to_string
  // ---------------------------------------------------------------------------

  predicate IsDigit(c: char) {
    '0' <= c <= '9'
  }

  /** The value of a string of decimal digits. */
  function DigitsValue(s: string): nat
    requires forall i :: 0 <= i < |s| ==> IsDigit(s[i])
  {
    if s == [] then 0
    else
      assert IsDigit(s[|s| - 1]);
      DigitsValue(s[..|s| - 1]) * 10 + (s[|s| - 1] as int - '0' as int)
  }

  /** Decimal digits of `n` without leading zeros, as std::to_string writes them. */
  function NatToString(n: nat): (r: string)
    ensures |r| >= 1
    ensures forall i :: 0 <= i < |r| ==> IsDigit(r[i])
    ensures r[0] != '0' || r == "0"
    ensures DigitsValue(r) == n
  {
    var last := [('0' as int + n % 10) as char];
    if n < 10 then last
    else
      var r := NatToString(n / 10) + last;
      assert r[..|r| - 1] == NatToString(n / 10);
      r
  }

  /** std::to_string(int): a minus sign in front of a negative number. */
  function IntToString(n: int): (r: string)
    ensures |r| >= 1
    ensures n < 0 <==> r[0] == '-'
    ensures n < 0 ==> r[1..] == NatToString(-n)
    ensures n >= 0 ==> r == NatToString(n)
  {
    if n < 0 then "-" + NatToString(-n) else NatToString(n)
  }

  /** Different numbers are written differently. */
  lemma NatToStringInjective(m: nat, n: nat)
    requires NatToString(m) == NatToString(n)
    ensures m == n
  {
  }
}
