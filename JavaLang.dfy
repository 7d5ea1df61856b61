/** The java.lang behaviour the plugin's bookkeeping rests on: the String
    operations it calls (replaceAll("\\s+", ""), trim(), split() on a
    one-character class, replace(target, "")) and the exceptions that end a
    computation early. */
module JavaLang {

  /** The unchecked exceptions the modelled code can raise. */
  datatype Fault = IndexOutOfBounds | NullPointer

  /** A value, or the exception that prevented it. */
  datatype Result<T> = Ok(value: T) | Fail(fault: Fault)

  // ---------------------------------------------------------------------
  // replaceAll("\\s+", "")

  /** Java's regex class `\s` without the UNICODE_CHARACTER_CLASS flag:
      space, tab, line feed, vertical tab, form feed, carriage return. */
  predicate IsSpace(c: char) {
    c == ' ' || c == '\t' || c == '\n' || c == '\r' || c as int == 0x0B || c as int == 0x0C
  }

  predicate NoSpace(s: string) {
    forall c :: c in s ==> !IsSpace(c)
  }

  /** `s.replaceAll("\\s+", "")`: every whitespace character is deleted, the
      others keep their order. */
  function StripSpaces(s: string): (r: string)
    ensures NoSpace(r)
    ensures forall c :: c in r <==> c in s && !IsSpace(c)
    ensures |r| <= |s|
  {
    if s == [] then []
    else if IsSpace(s[0]) then StripSpaces(s[1..])
    else [s[0]] + StripSpaces(s[1..])
  }

  /** Stripping a string that has no whitespace changes nothing; in
      particular stripping is idempotent. */
  lemma {:induction false} StripSpacesNoop(s: string)
    requires NoSpace(s)
    ensures StripSpaces(s) == s
  {
    if s != [] {
      StripSpacesNoop(s[1..]);
    }
  }

  /** Stripping works piecewise, so the kept characters stay in order and
      none is dropped or repeated. */
  lemma {:induction false} StripSpacesConcat(a: string, b: string)
    ensures StripSpaces(a + b) == StripSpaces(a) + StripSpaces(b)
  {
    if a != [] {
      assert (a + b)[0] == a[0] && (a + b)[1..] == a[1..] + b;
      StripSpacesConcat(a[1..], b);
    } else {
      assert a + b == b;
    }
  }

  // ---------------------------------------------------------------------
  // trim()

  /** String.trim() removes the characters whose code is at most U+0020. */
  predicate IsTrimmable(c: char) {
    c as int <= 0x20
  }

  function TrimStart(s: string): (r: string)
    ensures |r| <= |s| && r == s[|s| - |r|..]
    ensures forall i :: 0 <= i < |s| - |r| ==> IsTrimmable(s[i])
    ensures r == [] || !IsTrimmable(r[0])
  {
    if s != [] && IsTrimmable(s[0]) then
      var r := TrimStart(s[1..]);
      assert s[1..][|s| - 1 - |r|..] == s[|s| - |r|..];
      r
    else s
  }

  function TrimEnd(s: string): (r: string)
    ensures |r| <= |s| && r == s[..|r|]
    ensures forall i :: |r| <= i < |s| ==> IsTrimmable(s[i])
    ensures r == [] || !IsTrimmable(r[|r| - 1])
  {
    if s != [] && IsTrimmable(s[|s| - 1]) then
      var r := TrimEnd(s[..|s| - 1]);
      assert s[..|s| - 1][..|r|] == s[..|r|];
      r
    else s
  }

  /** `s.trim()`: the longest substring of `s` that neither starts nor ends
      with a character up to U+0020. */
  function Trim(s: string): (r: string)
    ensures |r| <= |s|
    ensures forall c :: c in r ==> c in s
    ensures r == [] || (!IsTrimmable(r[0]) && !IsTrimmable(r[|r| - 1]))
    ensures TrimmedInfix(s, r)
  {
    TrimIsInfix(s);
    TrimEnd(TrimStart(s))
  }

  /** `r` is `s` with a prefix and a suffix of trimmable characters removed. */
  predicate TrimmedInfix(s: string, r: string) {
    exists i, j :: (0 <= i <= j <= |s| && r == s[i..j]
      && (forall k :: 0 <= k < i ==> IsTrimmable(s[k]))
      && (forall k :: j <= k < |s| ==> IsTrimmable(s[k])))
  }

  lemma {:induction false} TrimIsInfix(s: string)
    ensures TrimmedInfix(s, TrimEnd(TrimStart(s)))
  {
    var t := TrimStart(s);
    var r := TrimEnd(t);
    var i := |s| - |t|;
    var j := i + |r|;
    assert t == s[i..];
    assert r == t[..|r|];
    assert r == s[i..j] by {
      forall k | 0 <= k < |r| ensures r[k] == s[i + k] {
        assert r[k] == t[k];
      }
    }
    assert forall k :: 0 <= k < i ==> IsTrimmable(s[k]);
    assert forall k :: j <= k < |s| ==> IsTrimmable(s[k]) by {
      forall k | j <= k < |s| ensures IsTrimmable(s[k]) {
        assert s[k] == t[k - i];
      }
    }
  }

  /** A string with nothing to trim at either end is its own trim. */
  lemma {:induction false} TrimNoop(s: string)
    requires s == [] || (!IsTrimmable(s[0]) && !IsTrimmable(s[|s| - 1]))
    ensures Trim(s) == s
  {
  }

  // ---------------------------------------------------------------------
  // split(regex) for a regex that matches exactly one character `d`

  /** The pieces of `s` between the occurrences of `d`, empty pieces kept. */
  function SplitAll(s: string, d: char): (r: seq<string>)
    ensures |r| >= 1
    ensures forall p :: 0 <= p < |r| ==> d !in r[p]
  {
    if s == [] then [[]]
    else
      var rest := SplitAll(s[1..], d);
      if s[0] == d then [[]] + rest else [[s[0]] + rest[0]] + rest[1..]
  }

  /** The pieces glued back together with `d` between them. */
  function Join(ts: seq<string>, d: char): string {
    if |ts| == 0 then []
    else if |ts| == 1 then ts[0]
    else ts[0] + [d] + Join(ts[1..], d)
  }

  /** split with limit 0 removes the trailing empty strings. */
  function DropTrailingEmpty(ts: seq<string>): (r: seq<string>)
    ensures |r| <= |ts| && r == ts[..|r|]
    ensures r == [] || r[|r| - 1] != []
    ensures forall p :: |r| <= p < |ts| ==> ts[p] == []
  {
    if ts != [] && ts[|ts| - 1] == [] then DropTrailingEmpty(ts[..|ts| - 1]) else ts
  }

  /** `s.split("[d]")`: when `d` does not occur the result is `[s]` (so the
      empty string gives `[""]`); otherwise it is the pieces between the
      occurrences of `d` with the trailing empty ones removed (so a string of
      delimiters only gives `[]`). Every piece is free of `d` and made of
      characters of `s`. */
  function Split(s: string, d: char): (r: seq<string>)
    ensures forall p :: 0 <= p < |r| ==> d !in r[p]
    ensures forall p, c :: 0 <= p < |r| && c in r[p] ==> c in s
  {
    if d !in s then [s]
    else
      var all := SplitAll(s, d);
      JoinSplitAll(s, d);
      JoinHasPieceChars(all, d);
      DropTrailingEmpty(all)
  }

  /** Joining the pieces gives back the string. */
  lemma {:induction false} JoinSplitAll(s: string, d: char)
    ensures Join(SplitAll(s, d), d) == s
  {
    if s != [] {
      var rest := SplitAll(s[1..], d);
      JoinSplitAll(s[1..], d);
      if s[0] == d {
        assert SplitAll(s, d)[1..] == rest;
      } else if |rest| > 1 {
        assert SplitAll(s, d)[1..] == rest[1..];
      }
      assert [s[0]] + s[1..] == s;
    }
  }

  /** Every character of a piece is a character of the joined string. */
  lemma {:induction false} JoinHasPieceChars(ts: seq<string>, d: char)
    ensures forall p, c :: 0 <= p < |ts| && c in ts[p] ==> c in Join(ts, d)
  {
    if |ts| > 1 {
      JoinHasPieceChars(ts[1..], d);
      forall p, c | 0 <= p < |ts| && c in ts[p] ensures c in Join(ts, d) {
        if p > 0 {
          assert ts[1..][p - 1] == ts[p];
        }
      }
    }
  }

  /** Every character of the joined string is the delimiter or a character
      of one of the pieces. */
  lemma {:induction false} JoinCharsFromPieces(ts: seq<string>, d: char)
    ensures forall c :: c in Join(ts, d) ==> c == d || exists p :: 0 <= p < |ts| && c in ts[p]
  {
    if |ts| > 1 {
      JoinCharsFromPieces(ts[1..], d);
      forall c | c in Join(ts, d) ensures c == d || exists p :: 0 <= p < |ts| && c in ts[p] {
        if c !in ts[0] && c != d {
          assert c in Join(ts[1..], d);
          var p :| 0 <= p < |ts[1..]| && c in ts[1..][p];
          assert c in ts[p + 1];
        }
      }
    }
  }

  /** The last piece is empty only when the string is empty or ends with the
      delimiter. */
  lemma {:induction false} SplitAllLastPiece(s: string, d: char)
    requires s != [] && s[|s| - 1] != d
    ensures SplitAll(s, d)[|SplitAll(s, d)| - 1] != []
  {
    if |s| > 1 {
      assert s[1..][|s[1..]| - 1] == s[|s| - 1];
      SplitAllLastPiece(s[1..], d);
    }
  }

  /** Without a delimiter the string is one piece. */
  lemma {:induction false} SplitAllNoDelimiter(s: string, d: char)
    requires d !in s
    ensures SplitAll(s, d) == [s]
  {
    if s != [] {
      SplitAllNoDelimiter(s[1..], d);
      assert [s[0]] + s[1..] == s;
    }
  }

  /** A delimiter after a delimiter-free prefix ends the first piece. */
  lemma {:induction false} SplitAllAfterFirst(a: string, u: string, d: char)
    requires d !in a
    ensures SplitAll(a + [d] + u, d) == [a] + SplitAll(u, d)
  {
    if a == [] {
      assert (a + [d] + u)[1..] == u;
    } else {
      assert (a + [d] + u)[1..] == a[1..] + [d] + u;
      SplitAllAfterFirst(a[1..], u, d);
      assert [a[0]] + a[1..] == a;
    }
  }

  /** Splitting what was joined from delimiter-free pieces gives the pieces
      back, empty ones included. */
  lemma {:induction false} SplitAllJoin(ts: seq<string>, d: char)
    requires |ts| >= 1
    requires forall p :: 0 <= p < |ts| ==> d !in ts[p]
    ensures SplitAll(Join(ts, d), d) == ts
  {
    if |ts| == 1 {
      SplitAllNoDelimiter(ts[0], d);
    } else {
      SplitAllJoin(ts[1..], d);
      SplitAllAfterFirst(ts[0], Join(ts[1..], d), d);
      assert [ts[0]] + ts[1..] == ts;
    }
  }

  /** The round trip of split: pieces that carry no delimiter, joined with
      it, split back into exactly those pieces, provided the last piece is
      not empty (split drops trailing empty pieces) or there is only one. */
  lemma {:induction false} SplitJoin(ts: seq<string>, d: char)
    requires |ts| >= 1
    requires forall p :: 0 <= p < |ts| ==> d !in ts[p]
    requires |ts| == 1 || ts[|ts| - 1] != []
    ensures Split(Join(ts, d), d) == ts
  {
    if |ts| > 1 {
      assert Join(ts, d)[|ts[0]|] == d;
      SplitAllJoin(ts, d);
    }
  }

  /** `k` copies of `c`. */
  function Repeat(c: char, k: nat): (r: string)
    ensures |r| == k && forall i :: 0 <= i < k ==> r[i] == c
  {
    if k == 0 then [] else [c] + Repeat(c, k - 1)
  }

  /** `k` delimiters are `k + 1` empty pieces. */
  lemma {:induction false} SplitAllRepeat(d: char, k: nat)
    ensures |SplitAll(Repeat(d, k), d)| == k + 1
    ensures forall p :: 0 <= p <= k ==> SplitAll(Repeat(d, k), d)[p] == []
  {
    if k > 0 {
      SplitAllRepeat(d, k - 1);
    }
  }

  /** Joined pieces followed by a delimiter end their pieces there. */
  lemma {:induction false} SplitAllJoinThen(ts: seq<string>, u: string, d: char)
    requires |ts| >= 1
    requires forall p :: 0 <= p < |ts| ==> d !in ts[p]
    ensures SplitAll(Join(ts, d) + [d] + u, d) == ts + SplitAll(u, d)
  {
    if |ts| == 1 {
      SplitAllAfterFirst(ts[0], u, d);
    } else {
      SplitAllJoinThen(ts[1..], u, d);
      SplitAllJoinStep(ts, u, d);
    }
  }

  /** The first joined piece is split off before the rest. */
  lemma {:induction false} SplitAllJoinStep(ts: seq<string>, u: string, d: char)
    requires |ts| >= 2 && d !in ts[0]
    requires SplitAll(Join(ts[1..], d) + [d] + u, d) == ts[1..] + SplitAll(u, d)
    ensures SplitAll(Join(ts, d) + [d] + u, d) == ts + SplitAll(u, d)
  {
    var rest := Join(ts[1..], d);
    assert Join(ts, d) == ts[0] + [d] + rest;
    JoinThenRegroup(ts[0], rest, u, d);
    SplitAllAfterFirst(ts[0], rest + [d] + u, d);
    ConsThen(ts, SplitAll(u, d));
  }

  lemma {:induction false} ConsThen<T>(ts: seq<T>, v: seq<T>)
    requires ts != []
    ensures [ts[0]] + (ts[1..] + v) == ts + v
  {
    assert [ts[0]] + ts[1..] == ts;
  }

  lemma {:induction false} JoinThenRegroup(x: string, rest: string, u: string, d: char)
    ensures x + [d] + rest + [d] + u == x + [d] + (rest + [d] + u)
  {
  }

  /** Dropping trailing empty pieces after a non-empty last piece leaves
      exactly the pieces before them. */
  lemma {:induction false} DropTrailingEmptyOf(ts: seq<string>, e: seq<string>)
    requires ts == [] || ts[|ts| - 1] != []
    requires forall p :: 0 <= p < |e| ==> e[p] == []
    ensures DropTrailingEmpty(ts + e) == ts
  {
    if e == [] {
      assert ts + e == ts;
    } else {
      assert (ts + e)[..|ts + e| - 1] == ts + e[..|e| - 1];
      DropTrailingEmptyOf(ts, e[..|e| - 1]);
    }
  }

  /** Trailing delimiters are dropped: pieces with a non-empty last piece,
      joined and followed by `k >= 1` delimiters, split back to exactly
      those pieces ("a,b," gives ["a", "b"]). */
  lemma {:induction false} SplitTrailing(ts: seq<string>, d: char, k: nat)
    requires |ts| >= 1 && k >= 1
    requires forall p :: 0 <= p < |ts| ==> d !in ts[p]
    requires ts[|ts| - 1] != []
    ensures Split(Join(ts, d) + Repeat(d, k), d) == ts
  {
    var s := Join(ts, d) + Repeat(d, k);
    assert s == Join(ts, d) + [d] + Repeat(d, k - 1);
    assert s[|Join(ts, d)|] == d;
    SplitAllJoinThen(ts, Repeat(d, k - 1), d);
    SplitAllRepeat(d, k - 1);
    DropTrailingEmptyOf(ts, SplitAll(Repeat(d, k - 1), d));
  }

  /** A string of delimiters only splits to no pieces at all (",," gives
      []). */
  lemma {:induction false} SplitOnlyDelimiters(d: char, k: nat)
    requires k >= 1
    ensures Split(Repeat(d, k), d) == []
  {
    assert Repeat(d, k)[0] == d;
    SplitAllRepeat(d, k);
  }

  // ---------------------------------------------------------------------
  // When does split give a second token?

  /** Some delimiter is followed, somewhere later, by a non-delimiter. */
  predicate HasSecondToken(s: string, d: char) {
    exists i, j :: 0 <= i < j < |s| && s[i] == d && s[j] != d
  }

  ghost predicate SomeNonEmpty(ts: seq<string>, from: nat) {
    exists p :: from <= p < |ts| && ts[p] != []
  }

  lemma {:induction false} SomePieceNonEmpty(s: string, d: char)
    ensures SomeNonEmpty(SplitAll(s, d), 0) <==> exists j :: 0 <= j < |s| && s[j] != d
  {
    if s != [] {
      var rest := SplitAll(s[1..], d);
      SomePieceNonEmpty(s[1..], d);
      if s[0] == d {
        var all := SplitAll(s, d);
        assert all == [[]] + rest;
        if SomeNonEmpty(rest, 0) {
          var p :| 0 <= p < |rest| && rest[p] != [];
          assert all[p + 1] != [];
          var j :| 0 <= j < |s[1..]| && s[1..][j] != d;
          assert s[j + 1] != d;
        }
        if exists j :: 0 <= j < |s| && s[j] != d {
          var j :| 0 <= j < |s| && s[j] != d;
          assert s[1..][j - 1] != d;
          var p :| 0 <= p < |rest| && rest[p] != [];
          assert all[p + 1] == rest[p];
        }
      } else {
        assert SplitAll(s, d)[0] != [];
      }
    }
  }

  lemma {:induction false} LaterPieceNonEmpty(s: string, d: char)
    ensures SomeNonEmpty(SplitAll(s, d), 1) <==> HasSecondToken(s, d)
  {
    if s != [] {
      if s[0] == d {
        SomePieceNonEmpty(s[1..], d);
        LaterPieceAfterDelimiter(s, d);
      } else {
        LaterPieceNonEmpty(s[1..], d);
        LaterPieceAfterOther(s, d);
      }
    }
  }

  /** The step of `LaterPieceNonEmpty` for a string that starts with `d`. */
  lemma {:induction false} LaterPieceAfterDelimiter(s: string, d: char)
    requires s != [] && s[0] == d
    requires SomeNonEmpty(SplitAll(s[1..], d), 0) <==> exists j :: 0 <= j < |s[1..]| && s[1..][j] != d
    ensures SomeNonEmpty(SplitAll(s, d), 1) <==> HasSecondToken(s, d)
  {
    var rest := SplitAll(s[1..], d);
    var all := SplitAll(s, d);
    assert all == [[]] + rest;
    if SomeNonEmpty(all, 1) {
      var p :| 1 <= p < |all| && all[p] != [];
      assert rest[p - 1] != [];
      var j :| 0 <= j < |s[1..]| && s[1..][j] != d;
      assert s[0] == d && s[j + 1] != d;
    }
    if HasSecondToken(s, d) {
      var i, j :| 0 <= i < j < |s| && s[i] == d && s[j] != d;
      assert s[1..][j - 1] != d;
      var p :| 0 <= p < |rest| && rest[p] != [];
      assert all[p + 1] == rest[p];
    }
  }

  /** The step of `LaterPieceNonEmpty` for a string that starts with
      another character. */
  lemma {:induction false} LaterPieceAfterOther(s: string, d: char)
    requires s != [] && s[0] != d
    requires SomeNonEmpty(SplitAll(s[1..], d), 1) <==> HasSecondToken(s[1..], d)
    ensures SomeNonEmpty(SplitAll(s, d), 1) <==> HasSecondToken(s, d)
  {
    var rest := SplitAll(s[1..], d);
    var all := SplitAll(s, d);
    assert all == [[s[0]] + rest[0]] + rest[1..];
    assert SomeNonEmpty(all, 1) <==> SomeNonEmpty(rest, 1) by {
      if SomeNonEmpty(all, 1) {
        var p :| 1 <= p < |all| && all[p] != [];
        assert rest[p] != [];
      }
      if SomeNonEmpty(rest, 1) {
        var p :| 1 <= p < |rest| && rest[p] != [];
        assert all[p] == rest[p];
      }
    }
    HasSecondTokenAfterOther(s, d);
  }

  /** A leading non-delimiter plays no part in having a second token. */
  lemma {:induction false} HasSecondTokenAfterOther(s: string, d: char)
    requires s != [] && s[0] != d
    ensures HasSecondToken(s, d) <==> HasSecondToken(s[1..], d)
  {
    if HasSecondToken(s[1..], d) {
      var i, j :| 0 <= i < j < |s[1..]| && s[1..][i] == d && s[1..][j] != d;
      assert s[i + 1] == d && s[j + 1] != d;
    }
    if HasSecondToken(s, d) {
      var i, j :| 0 <= i < j < |s| && s[i] == d && s[j] != d;
      assert s[1..][i - 1] == d && s[1..][j - 1] != d;
    }
  }

  /** `s.split("[d]")[1]` exists exactly when some delimiter is followed,
      somewhere later, by a character other than the delimiter: "a-" and
      "--" have no second token, "-a" and "a--b" do. */
  lemma {:induction false} SplitHasSecondToken(s: string, d: char)
    ensures |Split(s, d)| >= 2 <==> HasSecondToken(s, d)
  {
    if d in s {
      var all := SplitAll(s, d);
      var r := DropTrailingEmpty(all);
      LaterPieceNonEmpty(s, d);
      if |r| >= 2 {
        assert all[|r| - 1] == r[|r| - 1];
      }
      if SomeNonEmpty(all, 1) {
        var p :| 1 <= p < |all| && all[p] != [];
        assert p < |r|;
      }
    }
  }

  /** split's second token is the text between the first and the second
      delimiter (or the end of the string); it may be empty ("a--b" gives
      "") as long as a non-delimiter follows somewhere, since otherwise
      split drops it. */
  lemma {:induction false} SplitSecondToken(a: string, b: string, tail: string, d: char)
    requires d !in a && d !in b
    requires tail == [] || tail[0] == d
    requires b != [] || exists j :: 0 <= j < |tail| && tail[j] != d
    ensures |Split(a + [d] + b + tail, d)| >= 2
    ensures Split(a + [d] + b + tail, d)[1] == b
  {
    var s := a + [d] + b + tail;
    assert s[|a|] == d;
    if b != [] {
      assert s[|a| + 1] == b[0];
    } else {
      var j :| 0 <= j < |tail| && tail[j] != d;
      assert s[|a| + 1 + j] == tail[j];
    }
    SplitHasSecondToken(s, d);
    SplitAllSecondPiece(a, b, tail, d);
    assert d in s;
  }

  lemma {:induction false} SplitAllSecondPiece(a: string, b: string, tail: string, d: char)
    requires d !in a && d !in b
    requires tail == [] || tail[0] == d
    ensures |SplitAll(a + [d] + b + tail, d)| >= 2
    ensures SplitAll(a + [d] + b + tail, d)[1] == b
  {
    assert a + [d] + b + tail == a + [d] + (b + tail);
    SplitAllAfterFirst(a, b + tail, d);
    if tail == [] {
      assert b + tail == b;
      SplitAllNoDelimiter(b, d);
    } else {
      assert b + tail == b + [d] + tail[1..];
      SplitAllAfterFirst(b, tail[1..], d);
    }
  }

  // ---------------------------------------------------------------------
  // replace(target, "")

  /** `s.replace(t, "")`: scanning left to right, every non-overlapping
      occurrence of the literal `t` is deleted; an empty `t` leaves `s` as
      it is. Nothing is added, so every character of the result is one of
      `s`. */
  function RemoveAll(s: string, t: string): (r: string)
    ensures |r| <= |s|
    ensures forall c :: c in r ==> c in s
    decreases |s|
  {
    if t == [] || s == [] then s
    else if t <= s then RemoveAll(s[|t|..], t)
    else [s[0]] + RemoveAll(s[1..], t)
  }

  /** `t` occurs in `s` at some position. */
  predicate Occurs(t: string, s: string) {
    exists i :: 0 <= i <= |s| - |t| && t <= s[i..]
  }

  /** With no occurrence of the target, replace changes nothing. */
  lemma {:induction false} RemoveAllAbsent(s: string, t: string)
    requires !Occurs(t, s)
    ensures RemoveAll(s, t) == s
  {
    if t != [] && s != [] {
      assert !(t <= s[0..]);
      assert s[0..] == s;
      RemoveAllAbsent(s[1..], t);
    }
  }

  /** The first occurrence of the target is deleted and the scan goes on
      after it: everything before it is kept as it is. */
  lemma {:induction false} RemoveAllFirst(a: string, t: string, b: string)
    requires t != []
    requires forall i :: 0 <= i < |a| ==> !(t <= (a + t + b)[i..])
    ensures RemoveAll(a + t + b, t) == a + RemoveAll(b, t)
  {
    if a == [] {
      assert a + t + b == t + b;
      RemoveAllAtMatch(t, b);
    } else {
      RemoveAllKeepsFirst(a, t, b);
      RemoveAllFirst(a[1..], t, b);
      ConsThen(a, RemoveAll(b, t));
    }
  }

  /** The first character of `a` starts no occurrence, so it is kept, and
      the scan goes on with the rest of `a`, which starts none either. */
  lemma {:induction false} RemoveAllKeepsFirst(a: string, t: string, b: string)
    requires t != [] && a != []
    requires forall i :: 0 <= i < |a| ==> !(t <= (a + t + b)[i..])
    ensures RemoveAll(a + t + b, t) == [a[0]] + RemoveAll(a[1..] + t + b, t)
    ensures forall i :: 0 <= i < |a[1..]| ==> !(t <= (a[1..] + t + b)[i..])
  {
    var s := a + t + b;
    assert s[0..] == s;
    RemoveAllNoMatch(s, t);
    assert s[1..] == a[1..] + t + b;
    NoMatchInTail(a, t, b);
  }

  /** No occurrence starts in `a` then none starts in `a[1..]`. */
  lemma {:induction false} NoMatchInTail(a: string, t: string, b: string)
    requires a != []
    requires forall i :: 0 <= i < |a| ==> !(t <= (a + t + b)[i..])
    ensures forall i :: 0 <= i < |a[1..]| ==> !(t <= (a[1..] + t + b)[i..])
  {
    forall i | 0 <= i < |a[1..]|
      ensures !(t <= (a[1..] + t + b)[i..])
    {
      assert (a[1..] + t + b)[i..] == (a + t + b)[i + 1..];
    }
  }

  /** An occurrence at the front is deleted. */
  lemma {:induction false} RemoveAllAtMatch(t: string, b: string)
    requires t != []
    ensures RemoveAll(t + b, t) == RemoveAll(b, t)
  {
    assert (t + b)[|t|..] == b;
  }

  /** A character that does not start an occurrence is kept. */
  lemma {:induction false} RemoveAllNoMatch(s: string, t: string)
    requires t != [] && s != [] && !(t <= s)
    ensures RemoveAll(s, t) == [s[0]] + RemoveAll(s[1..], t)
  {
  }
}
