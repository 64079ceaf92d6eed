/** Cutting paths into components with the in-place tokenizer (drivers/fs.c). */
module PathTokens {
  const NUL: char := '\0'
  const NULL: int := -1
  const FS_MAX_PATH_LEN: nat := 256

  // ----- Strings in buffers -----

  /** The index of the terminator of the string that starts at `i`. */
  function EndOf(s: seq<char>, i: nat): (e: nat)
    requires i <= |s|
    ensures i <= e <= |s| && (e < |s| ==> s[e] == NUL)
    ensures forall k :: i <= k < e ==> s[k] != NUL
    decreases |s| - i
  {
    if i == |s| || s[i] == NUL then i else EndOf(s, i + 1)
  }

  /** The string that a pointer to index `i` denotes. */
  function Text(s: seq<char>, i: nat): string
    requires i <= |s|
  {
    s[i..EndOf(s, i)]
  }

  predicate Terminated(s: seq<char>, i: nat) { i <= |s| && EndOf(s, i) < |s| }

  lemma EndUnique(s: seq<char>, i: nat, e: nat)
    requires i <= e < |s| && s[e] == NUL && forall k :: i <= k < e ==> s[k] != NUL
    ensures EndOf(s, i) == e
  {}

  // ----- The specification: maximal runs of non-delimiters -----

  function RunLength(s: string, d: string): (n: nat)
    ensures n <= |s| && (n < |s| ==> s[n] in d)
    ensures forall k :: 0 <= k < n ==> s[k] !in d
  {
    if s == "" || s[0] in d then 0 else 1 + RunLength(s[1..], d)
  }

  function Tokens(s: string, d: string): seq<string>
    decreases |s|
  {
    if s == "" then []
    else if s[0] in d then Tokens(s[1..], d)
    else
      var n := RunLength(s, d);
      [s[..n]] + Tokens(s[n..], d)
  }

  /** `seps[0] + ts[0] + seps[1] + ts[1] + ... + seps[|ts|]` */
  function Interleave(seps: seq<string>, ts: seq<string>): string
    requires |seps| == |ts| + 1
  {
    if ts == [] then seps[0] else seps[0] + ts[0] + Interleave(seps[1..], ts[1..])
  }

  predicate AllIn(s: string, d: string) { forall c :: c in s ==> c in d }

  predicate NoneIn(s: string, d: string) { forall c :: c in s ==> c !in d }

  /** `ts` are the maximal runs: delimiter-free, not empty, and with delimiters between any two of them. */
  ghost predicate MaximalRuns(seps: seq<string>, ts: seq<string>, d: string)
  {
    && |seps| == |ts| + 1
    && (forall i :: 0 <= i < |seps| ==> AllIn(seps[i], d))
    && (forall i :: 0 < i < |ts| ==> seps[i] != "")
    && (forall i :: 0 <= i < |ts| ==> ts[i] != "" && NoneIn(ts[i], d))
  }

  /** Every string is an interleaving of its tokens with delimiters. */
  lemma {:induction false} TokensAreRuns(s: string, d: string) returns (seps: seq<string>)
    ensures MaximalRuns(seps, Tokens(s, d), d) && Interleave(seps, Tokens(s, d)) == s
    decreases |s|
  {
    if s == "" {
      seps := [""];
    } else if s[0] in d {
      var rest := TokensAreRuns(s[1..], d);
      seps := [[s[0]] + rest[0]] + rest[1..];
      LongerSeparator(s[0], rest, Tokens(s[1..], d), d);
    } else {
      var n := RunLength(s, d);
      var rest := TokensAreRuns(s[n..], d);
      seps := [""] + rest;
      TokenInFront(s[..n], s[n..], rest, Tokens(s[n..], d), d);
      assert s[..n] + s[n..] == s;
    }
  }

  lemma LongerSeparator(c: char, rest: seq<string>, ts: seq<string>, d: string)
    requires MaximalRuns(rest, ts, d) && c in d
    ensures var seps := [[c] + rest[0]] + rest[1..];
      MaximalRuns(seps, ts, d) && Interleave(seps, ts) == [c] + Interleave(rest, ts)
  {
    var seps := [[c] + rest[0]] + rest[1..];
    assert seps[1..] == rest[1..];
    assert forall i :: 0 < i < |seps| ==> seps[i] == rest[i];
    InterleaveSplit(rest, ts);
    InterleaveSplit(seps, ts);
  }

  lemma TokenInFront(t: string, s: string, rest: seq<string>, ts: seq<string>, d: string)
    requires MaximalRuns(rest, ts, d) && Interleave(rest, ts) == s && (s != "" ==> s[0] in d)
    requires t != "" && NoneIn(t, d)
    ensures MaximalRuns([""] + rest, [t] + ts, d) && Interleave([""] + rest, [t] + ts) == t + s
  {
    var seps, all := [""] + rest, [t] + ts;
    FirstSeparator(s, d, rest, ts);
    assert seps[1..] == rest && all[1..] == ts;
    forall i | 0 < i < |all|
      ensures seps[i] != "" && all[i] != "" && NoneIn(all[i], d)
    {
      assert seps[i] == rest[i - 1] && all[i] == ts[i - 1];
    }
    forall i | 0 <= i < |seps|
      ensures AllIn(seps[i], d)
    {
      if i > 0 { assert seps[i] == rest[i - 1]; }
    }
  }

  lemma InterleaveSplit(seps: seq<string>, ts: seq<string>)
    requires |seps| == |ts| + 1
    ensures Interleave(seps, ts) == seps[0] + if ts == [] then "" else ts[0] + Interleave(seps[1..], ts[1..])
  {}

  /** A rest that is empty or starts with a delimiter does not start with a token. */
  lemma FirstSeparator(s: string, d: string, seps: seq<string>, ts: seq<string>)
    requires MaximalRuns(seps, ts, d) && Interleave(seps, ts) == s && (s != "" ==> s[0] in d)
    ensures ts != [] ==> seps[0] != ""
  {
    if ts != [] { assert ts[0][0] in ts[0]; }
  }

  lemma {:induction false} SkipSeparator(sep: string, s: string, d: string)
    requires AllIn(sep, d)
    ensures Tokens(sep + s, d) == Tokens(s, d)
  {
    if sep == "" {
      assert sep + s == s;
    } else {
      assert sep[0] in sep && (sep + s)[1..] == sep[1..] + s;
      SkipSeparator(sep[1..], s, d);
    }
  }

  lemma {:induction false} RunIs(t: string, s: string, d: string)
    requires NoneIn(t, d) && (s != "" ==> s[0] in d)
    ensures RunLength(t + s, d) == |t|
  {
    if t == "" {
      assert t + s == s;
    } else {
      assert t[0] in t && (t + s)[1..] == t[1..] + s;
      RunIs(t[1..], s, d);
    }
  }

  /** The maximal runs are unique: they are what `Tokens` computes. */
  lemma {:induction false} RunsAreTokens(seps: seq<string>, ts: seq<string>, d: string)
    requires MaximalRuns(seps, ts, d)
    ensures Tokens(Interleave(seps, ts), d) == ts
  {
    if ts == [] {
      SkipSeparator(seps[0], "", d);
      assert seps[0] + "" == seps[0];
    } else {
      var rest := Interleave(seps[1..], ts[1..]);
      assert Interleave(seps, ts) == seps[0] + (ts[0] + rest);
      SkipSeparator(seps[0], ts[0] + rest, d);
      StartsWithDelimiter(seps[1..], ts[1..], d);
      RunIs(ts[0], rest, d);
      assert ts[0][0] in ts[0];
      assert (ts[0] + rest)[..|ts[0]|] == ts[0] && (ts[0] + rest)[|ts[0]|..] == rest;
      RunsAreTokens(seps[1..], ts[1..], d);
    }
  }

  lemma StartsWithDelimiter(seps: seq<string>, ts: seq<string>, d: string)
    requires |seps| == |ts| + 1 && AllIn(seps[0], d) && (ts != [] ==> seps[0] != "")
    ensures var s := Interleave(seps, ts); s != "" ==> s[0] in d
  {
    if seps[0] != "" { assert seps[0][0] in seps[0]; }
  }

  // ----- Joining -----

  /** A leading delimiter and the components with one delimiter between any two. */
  function Join(ts: seq<string>, c: char): string
  {
    if ts == [] then "" else [c] + ts[0] + Join(ts[1..], c)
  }

  lemma {:induction false} JoinInterleaves(ts: seq<string>, c: char)
    ensures Join(ts, c) == Interleave(seq(|ts|, _ => [c]) + [""], ts)
  {
    if ts != [] {
      var seps: seq<string> := seq(|ts|, _ => [c]) + [""];
      assert seps[1..] == seq(|ts| - 1, _ => [c]) + [""];
      JoinInterleaves(ts[1..], c);
    }
  }

  predicate Component(t: string) { t != "" && NoneIn(t, "/") }

  /** Tokenising undoes joining. */
  lemma TokensOfJoin(ts: seq<string>)
    requires forall i :: 0 <= i < |ts| ==> Component(ts[i])
    ensures Tokens(Join(ts, '/'), "/") == ts
  {
    JoinInterleaves(ts, '/');
    RunsAreTokens(seq(|ts|, _ => "/") + [""], ts, "/");
  }

  /** Joining the tokens gives a path with the same tokens, whatever slashes the path had. */
  lemma JoinOfTokens(path: string)
    ensures forall i :: 0 <= i < |Tokens(path, "/")| ==> Component(Tokens(path, "/")[i])
    ensures Tokens(Join(Tokens(path, "/"), '/'), "/") == Tokens(path, "/")
  {
    var seps := TokensAreRuns(path, "/");
    TokensOfJoin(Tokens(path, "/"));
  }

  /** A string has room for one token in any two characters. */
  lemma {:induction false} FewTokens(s: string, d: string)
    ensures 2 * |Tokens(s, d)| <= |s| + 1
    decreases |s|
  {
    if s == "" {
    } else if s[0] in d {
      FewTokens(s[1..], d);
    } else {
      var n := RunLength(s, d);
      FewTokens(s[n..], d);
      if n < |s| {
        assert s[n..][1..] == s[n + 1..];
        FewTokens(s[n + 1..], d);
      }
    }
  }

  // ----- The tokenizer -----

  lemma TextStep(s: seq<char>, i: nat)
    requires Terminated(s, i)
    ensures s[i] == NUL <==> Text(s, i) == ""
    ensures s[i] != NUL ==> Terminated(s, i + 1) && Text(s, i) == [s[i]] + Text(s, i + 1)
  {}

  lemma {:induction false} RunStep(s: seq<char>, i: nat, j: nat, d: string)
    requires Terminated(s, i) && i <= j <= EndOf(s, i)
    requires forall k :: i <= k < j ==> s[k] !in d
    ensures Terminated(s, j) && Text(s, i) == s[i..j] + Text(s, j)
    ensures s[j] == NUL || s[j] in d ==> RunLength(Text(s, i), d) == j - i
  {
    EndUnique(s, j, EndOf(s, i));
    if s[j] == NUL || s[j] in d { RunIs(s[i..j], Text(s, j), d); }
  }

  /** Cutting the text at the delimiter behind a token leaves the token and, behind the cut, the rest. */
  lemma CutText(s: seq<char>, i: nat, j: nat)
    requires Terminated(s, i) && i <= j < EndOf(s, i)
    ensures var s' := s[j := NUL];
      && Terminated(s', i) && Text(s', i) == s[i..j] && EndOf(s', i) == j
      && Terminated(s', j + 1) && Text(s', j + 1) == Text(s, j + 1)
  {
    var s' := s[j := NUL];
    EndUnique(s', i, j);
    EndUnique(s, j + 1, EndOf(s, i));
    EndUnique(s', j + 1, EndOf(s, i));
  }

  class Tokenizer {
    var buffer: array?<char>   // where lastToken points to
    var lastToken: int         // the index at which the next search starts, or NULL

    ghost predicate Valid()
      reads this, buffer
    {
      NULL <= lastToken && (lastToken != NULL ==> buffer != null && Terminated(buffer[..], lastToken))
    }

    /** The text still to be cut. */
    ghost function Pending(): string
      requires Valid()
      reads this, buffer
    {
      if lastToken == NULL then "" else Text(buffer[..], lastToken)
    }

    constructor ()
      ensures Valid() && lastToken == NULL && Pending() == ""
    {
      buffer, lastToken := null, NULL;
    }

    /** The first call for a buffer. */
    method First(str: array<char>, d: string) returns (token: int)
      requires Terminated(str[..], 0)
      modifies this, str
      ensures Valid() && buffer == str && NULL <= token < str.Length
      ensures Cut(old(str[..]), str[..], 0, d, token, lastToken, Pending())
    {
      token := Scan(str, 0, d);
    }

    /** The calls that go on from where the last one stopped; without anything left they return NULL. */
    method Next(d: string) returns (token: int)
      requires Valid()
      modifies this, buffer
      ensures Valid() && buffer == old(buffer)
      ensures old(lastToken) == NULL ==> token == NULL && lastToken == NULL
      ensures old(lastToken) == NULL && buffer != null ==> buffer[..] == old(buffer[..])
      ensures old(lastToken) != NULL ==>
        NULL <= token < buffer.Length
        && Cut(old(buffer[..]), buffer[..], old(lastToken), d, token, lastToken, Pending())
    {
      if lastToken == NULL {
        return NULL;
      }
      token := Scan(buffer, lastToken, d);
    }

    method Scan(str: array<char>, start: nat, d: string) returns (token: int)
      requires Terminated(str[..], start)
      modifies this, str
      ensures Valid() && buffer == str && NULL <= token < str.Length
      ensures Cut(old(str[..]), str[..], start, d, token, lastToken, Pending())
    {
      hide Tokens, Text, EndOf;
      ghost var s := str[..];
      buffer := str;
      var i := start;
      TextStep(s, i);
      while str[i] != NUL && str[i] in d
        invariant start <= i && Terminated(s, i) && str[..] == s && buffer == str
        invariant Tokens(Text(s, i), d) == Tokens(Text(s, start), d)
        decreases |s| - i
      {
        TextStep(s, i);
        SkipSeparator([str[i]], Text(s, i + 1), d);
        i := i + 1;
      }
      TextStep(s, i);
      if str[i] == NUL {
        lastToken := NULL;
        NoTokens(d);
        return NULL;
      }
      var j := i;
      while str[j] != NUL && str[j] !in d
        invariant i <= j <= EndOf(s, i) < |s| && str[..] == s && buffer == str
        invariant forall k :: i <= k < j ==> s[k] !in d
        decreases |s| - j
      {
        j := j + 1;
      }
      TokenFound(s, i, j, d);
      if str[j] != NUL {
        CutText(s, i, j);
        str[j] := NUL;
        assert str[..] == s[j := NUL];
        lastToken := j + 1;
      } else {
        lastToken := NULL;
        NoTokens(d);
      }
      return i;
    }
  }

  lemma NoTokens(d: string)
    ensures Tokens("", d) == []
  {}

  /**
   * What one call does to the text from `start` on: without a token in it nothing is left; otherwise `token` is
   * the first, the rest is pending, and nothing before `start` has changed.
   */
  ghost predicate Cut(s: seq<char>, s': seq<char>, start: nat, d: string, token: int, last: int, pending: string)
    requires start <= |s|
  {
    var ts := Tokens(Text(s, start), d);
    && |s'| == |s| && s'[..start] == s[..start]
    && if ts == [] then
         token == NULL && last == NULL && s' == s && pending == ""
       else
         && start <= token && Terminated(s', token)
         && Text(s', token) == ts[0] && Tokens(pending, d) == ts[1..]
         && (last != NULL ==> EndOf(s', token) < last)
  }

  lemma TokenFound(s: seq<char>, i: nat, j: nat, d: string)
    requires Terminated(s, i) && i < j <= EndOf(s, i)
    requires (forall k :: i <= k < j ==> s[k] !in d) && (s[j] == NUL || s[j] in d)
    ensures Terminated(s, j) && Tokens(Text(s, i), d) == [s[i..j]] + Tokens(Text(s, j), d)
    ensures s[j] == NUL ==> EndOf(s, i) == j && Text(s, i) == s[i..j] && Text(s, j) == "" && Tokens(Text(s, j), d) == []
    ensures s[j] != NUL ==> j < EndOf(s, i) && Tokens(Text(s, j), d) == Tokens(Text(s, j + 1), d)
  {
    RunStep(s, i, j, d);
    TextStep(s, j);
    if s[j] == NUL { EndUnique(s, i, j); }
    var t := Text(s, i);
    assert t[0] == s[i] && t[..j - i] == s[i..j] && t[j - i..] == Text(s, j);
  }

  // ----- Parsing a path -----

  /** fs_parse_path: copy the path, cut the copy, and read the parts. */
  method ParsePath(path: string) returns (parts: seq<string>)
    requires |path| < FS_MAX_PATH_LEN && NUL !in path
    ensures parts == Tokens(path, "/")
  {
    var copy := new char[FS_MAX_PATH_LEN](i requires 0 <= i => if i < |path| then path[i] else NUL);
    EndUnique(copy[..], 0, |path|);
    assert Text(copy[..], 0) == path;
    FewTokens(path, "/");
    var pointers := CutAll(copy, path);
    parts := [];
    while |parts| < |pointers|
      invariant forall i :: 0 <= i < |pointers| ==> PointsAt(copy[..], pointers[i], Tokens(path, "/")[i])
      invariant |parts| <= |pointers| && parts == Tokens(path, "/")[..|parts|]
    {
      var part := ReadText(copy, pointers[|parts|]);
      parts := parts + [part];
    }
  }

  /** The tokenizing loop; the pointers it collects stay good while the buffer behind them is cut. */
  method CutAll(copy: array<char>, ghost path: string) returns (pointers: seq<nat>)
    requires Terminated(copy[..], 0) && Text(copy[..], 0) == path && |Tokens(path, "/")| < FS_MAX_PATH_LEN
    modifies copy
    ensures |pointers| == |Tokens(path, "/")|
    ensures forall i :: 0 <= i < |pointers| ==> PointsAt(copy[..], pointers[i], Tokens(path, "/")[i])
  {
    hide Tokens, Text, EndOf, Cut;
    var strtok := new Tokenizer();
    ghost var ts := Tokens(path, "/");
    ghost var s := copy[..];
    var token := strtok.First(copy, "/");
    CutMeaning(s, copy[..], 0, token, strtok.lastToken, strtok.Pending(), ts);
    pointers := [];
    while token != NULL && |pointers| < FS_MAX_PATH_LEN
      invariant strtok.Valid() && strtok.buffer == copy && |pointers| <= |ts|
      invariant Collected(copy[..], pointers, ts, strtok.lastToken)
      invariant Current(copy[..], token, strtok.lastToken, strtok.Pending(), ts[|pointers|..])
      decreases |ts| - |pointers|
    {
      s := copy[..];
      pointers := pointers + [token];
      ghost var last := strtok.lastToken;
      assert Collected(s, pointers, ts, last);
      token := strtok.Next("/");
      if last == NULL {
        NoTokens("/");
      } else {
        CutMeaning(s, copy[..], last, token, strtok.lastToken, strtok.Pending(), ts[|pointers|..]);
        StillCollected(s, copy[..], pointers, ts, last, strtok.lastToken);
      }
    }
  }

  /** Every pointer collected denotes its token and lies before the part of the buffer still to be cut. */
  ghost predicate Collected(s: seq<char>, pointers: seq<nat>, ts: seq<string>, last: int)
  {
    && |pointers| <= |ts|
    && (forall i :: 0 <= i < |pointers| ==> PointsAt(s, pointers[i], ts[i]))
    && (last != NULL ==> forall i :: 0 <= i < |pointers| ==> pointers[i] <= |s| && EndOf(s, pointers[i]) < last)
  }

  /** `token` denotes the first of the tokens still to come, and the others are pending. */
  ghost predicate Current(s: seq<char>, token: int, last: int, pending: string, ts: seq<string>)
  {
    if token == NULL then ts == []
    else
      && 0 <= token && ts != [] && PointsAt(s, token, ts[0]) && Tokens(pending, "/") == ts[1..]
      && (last != NULL ==> EndOf(s, token) < last)
  }

  lemma CutMeaning(s: seq<char>, s': seq<char>, start: nat, token: int, last: int, pending: string, ts: seq<string>)
    requires start <= |s| && Cut(s, s', start, "/", token, last, pending) && ts == Tokens(Text(s, start), "/")
    ensures |s'| == |s| && s'[..start] == s[..start] && Current(s', token, last, pending, ts)
    ensures last != NULL ==> start <= last
  {}

  lemma StillCollected(s: seq<char>, s': seq<char>, pointers: seq<nat>, ts: seq<string>, start: nat, last: int)
    requires Collected(s, pointers, ts, start) && start <= |s| == |s'| && s'[..start] == s[..start]
    requires last == NULL || start <= last
    ensures Collected(s', pointers, ts, last)
  {
    forall i | 0 <= i < |pointers|
      ensures PointsAt(s', pointers[i], ts[i]) && EndOf(s', pointers[i]) == EndOf(s, pointers[i])
    {
      var e := EndOf(s, pointers[i]);
      assert forall k :: 0 <= k < start ==> s'[k] == s'[..start][k] == s[..start][k] == s[k];
      EndUnique(s', pointers[i], e);
      assert s'[pointers[i]..e] == s[pointers[i]..e];
    }
  }

  ghost predicate PointsAt(s: seq<char>, i: nat, t: string)
  {
    Terminated(s, i) && Text(s, i) == t
  }

  method ReadText(buffer: array<char>, start: nat) returns (t: string)
    requires Terminated(buffer[..], start)
    ensures t == Text(buffer[..], start)
  {
    var i := start;
    while buffer[i] != NUL
      invariant start <= i <= EndOf(buffer[..], start)
      decreases buffer.Length - i
    {
      i := i + 1;
    }
    EndUnique(buffer[..], start, i);
    t := buffer[start..i];
  }
}
