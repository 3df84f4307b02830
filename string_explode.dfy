/** `LuaEngine::stringExplode`: split a string on one delimiter character by
    reading it with `std::getline` until the stream is exhausted.

    `std::getline(is, token, d)` fails only when the stream is already at its
    end before a single character is read; otherwise it extracts characters up
    to the next `d` (which it consumes and drops) or up to the end. Hence the
    empty string gives no token, interior and leading empty fields are kept,
    and one trailing delimiter does not produce a trailing empty token. */
module StringExplode {

  /** Position of the first `d` in `s`, or `|s|` when there is none. */
  function IndexOf(s: string, d: char): (i: nat)
    ensures i <= |s|
    ensures forall k :: 0 <= k < i ==> s[k] != d
    ensures i < |s| ==> s[i] == d
  {
    if s == [] then 0
    else if s[0] == d then 0
    else 1 + IndexOf(s[1..], d)
  }

  /** The contract of IndexOf determines its result. The body is empty:
      Dafny unfolds IndexOf by itself; callers use this to name the position. */
  lemma IndexOfUnique(s: string, d: char, i: nat)
    requires i <= |s|
    requires forall k :: 0 <= k < i ==> s[k] != d
    requires i < |s| ==> s[i] == d
    ensures IndexOf(s, d) == i
  {
  }

  /** The tokens `getline` produces, one call after another, on `s`. */
  function Split(s: string, d: char): seq<string>
    decreases |s|
  {
    if s == [] then []
    else
      var i := IndexOf(s, d);
      [s[..i]] + (if i < |s| then Split(s[i + 1..], d) else [])
  }

  /** `tokens` joined with `d` between consecutive tokens. */
  function Join(tokens: seq<string>, d: char): string
  {
    if tokens == [] then []
    else if |tokens| == 1 then tokens[0]
    else tokens[0] + [d] + Join(tokens[1..], d)
  }

  /** Every token followed by `d`, as the injected `getKeys` script builds
      its result (`s = s..k..","`). */
  function Terminated(tokens: seq<string>, d: char): string
  {
    if tokens == [] then [] else tokens[0] + [d] + Terminated(tokens[1..], d)
  }

  /** `s` with one trailing `d` removed, if it ends with one. */
  function DropTrailing(s: string, d: char): string
  {
    if s != [] && s[|s| - 1] == d then s[..|s| - 1] else s
  }

  predicate NoDelimiter(tokens: seq<string>, d: char)
  {
    forall k :: 0 <= k < |tokens| ==> d !in tokens[k]
  }

  /** No returned token contains the delimiter. */
  lemma {:induction false} SplitNoDelimiter(s: string, d: char)
    ensures NoDelimiter(Split(s, d), d)
    decreases |s|
  {
    if s != [] {
      var i := IndexOf(s, d);
      var head := s[..i];
      assert d !in head by {
        forall k | 0 <= k < i ensures head[k] != d { }
      }
      var tail := if i < |s| then Split(s[i + 1..], d) else [];
      if i < |s| {
        SplitNoDelimiter(s[i + 1..], d);
      }
      var tokens := Split(s, d);
      assert tokens == [head] + tail;
      forall k | 0 <= k < |tokens| ensures d !in tokens[k] {
        if k > 0 {
          assert tokens[k] == tail[k - 1];
        }
      }
    }
  }

  /** Join of a token in front of a non-empty list. */
  lemma JoinCons(t: string, tail: seq<string>, d: char)
    requires tail != []
    ensures Join([t] + tail, d) == t + [d] + Join(tail, d)
  {
  }

  /** Dropping a trailing delimiter only touches the end of the string. */
  lemma DropTrailingAppend(a: string, b: string, d: char)
    requires b != []
    ensures DropTrailing(a + b, d) == a + DropTrailing(b, d)
  {
  }

  /** Joining the tokens with the delimiter gives back the input, minus one
      trailing delimiter if the input ended with one. */
  lemma {:induction false} SplitJoin(s: string, d: char)
    ensures Join(Split(s, d), d) == DropTrailing(s, d)
    decreases |s|
  {
    if s != [] {
      var i := IndexOf(s, d);
      if i == |s| {
        assert s[..i] == s;
        assert Split(s, d) == [s];
      } else {
        var rest := s[i + 1..];
        assert s == s[..i] + [d] + rest;
        if rest == [] {
          assert Split(s, d) == [s[..i]];
          assert s[..|s| - 1] == s[..i];
        } else {
          SplitJoin(rest, d);
          var tail := Split(rest, d);
          assert Split(s, d) == [s[..i]] + tail;
          JoinCons(s[..i], tail, d);
          DropTrailingAppend(s[..i] + [d], rest, d);
        }
      }
    }
  }

  /** The number of tokens: none for the empty string; otherwise one more
      than the number of delimiters, or exactly that number when the last
      character is the delimiter. */
  lemma {:induction false} SplitCount(s: string, d: char)
    ensures |Split(s, d)| ==
      if s == [] then 0
      else if s[|s| - 1] == d then multiset(s)[d]
      else multiset(s)[d] + 1
    decreases |s|
  {
    if s != [] {
      var i := IndexOf(s, d);
      var head := s[..i];
      assert multiset(head)[d] == 0 by {
        forall k | 0 <= k < i ensures head[k] != d { }
        assert d !in head;
      }
      if i == |s| {
        assert head == s;
        assert Split(s, d) == [s];
      } else {
        var rest := s[i + 1..];
        assert s == head + [d] + rest;
        assert multiset(s) == multiset(head) + multiset{d} + multiset(rest);
        assert Split(s, d) == [head] + Split(rest, d);
        SplitCount(rest, d);
        if rest != [] {
          assert s[|s| - 1] == rest[|rest| - 1];
        }
      }
    }
  }

  /** Splitting a string of delimiter-terminated tokens gives back exactly
      those tokens, in order. */
  lemma {:induction false} SplitTerminated(tokens: seq<string>, d: char)
    requires NoDelimiter(tokens, d)
    ensures Split(Terminated(tokens, d), d) == tokens
    decreases |tokens|
  {
    if tokens != [] {
      var t := tokens[0];
      var rest := Terminated(tokens[1..], d);
      var s := t + [d] + rest;
      assert Terminated(tokens, d) == s;
      assert d !in t;
      IndexOfUnique(s, d, |t|);
      assert s[..|t|] == t;
      assert s[|t| + 1..] == rest;
      SplitTerminated(tokens[1..], d);
    }
  }

  /** A non-empty last token survives into the joined string. */
  lemma {:induction false} JoinLength(tokens: seq<string>, d: char)
    requires tokens != []
    ensures |Join(tokens, d)| >= |tokens[|tokens| - 1]|
    decreases |tokens|
  {
    if |tokens| > 1 {
      JoinLength(tokens[1..], d);
    }
  }

  /** Splitting the joined tokens gives them back, provided no token holds the
      delimiter and the last token is not empty (an empty last token is the
      trailing delimiter that splitting drops). */
  lemma {:induction false} JoinSplit(tokens: seq<string>, d: char)
    requires NoDelimiter(tokens, d)
    requires tokens == [] || tokens[|tokens| - 1] != []
    ensures Split(Join(tokens, d), d) == tokens
    decreases |tokens|
  {
    if tokens != [] {
      var t := tokens[0];
      assert d !in t;
      if |tokens| == 1 {
        IndexOfUnique(t, d, |t|);
        assert t[..|t|] == t;
      } else {
        var rest := Join(tokens[1..], d);
        var s := t + [d] + rest;
        IndexOfUnique(s, d, |t|);
        assert s[..|t|] == t;
        assert s[|t| + 1..] == rest;
        JoinLength(tokens[1..], d);
        JoinSplit(tokens[1..], d);
      }
    }
  }

  /** A non-empty string without the delimiter is a single token. */
  lemma SplitSingle(s: string, d: char)
    requires s != [] && d !in s
    ensures Split(s, d) == [s]
  {
    IndexOfUnique(s, d, |s|);
    assert s[..|s|] == s;
  }

  /** One call of `std::getline(iss, token, d)` on the stream `s` read up to
      position `pos`: it fails at the end of the stream; otherwise it returns
      the next token and the position after the consumed delimiter. */
  method GetLine(s: string, pos: nat, d: char) returns (ok: bool, token: string, next: nat)
    requires pos <= |s|
    ensures ok == (pos < |s|)
    ensures ok ==> pos < next <= |s| && Split(s[pos..], d) == [token] + Split(s[next..], d)
    ensures !ok ==> token == [] && next == pos && Split(s[pos..], d) == []
  {
    token := [];
    if pos == |s| {
      return false, token, pos;
    }
    var i := pos;
    while i < |s| && s[i] != d
      invariant pos <= i <= |s|
      invariant token == s[pos..i]
      invariant forall k :: pos <= k < i ==> s[k] != d
    {
      token := token + [s[i]];
      i := i + 1;
    }
    ok := true;
    next := if i < |s| then i + 1 else i;
    var t := s[pos..];
    IndexOfUnique(t, d, i - pos);
    assert t[..i - pos] == token;
    if i < |s| {
      assert t[i - pos + 1..] == s[next..];
    } else {
      assert s[next..] == [];
    }
  }

  /** `LuaEngine::stringExplode`: collect the tokens of successive `getline`
      calls until one fails. */
  method Explode(s: string, d: char) returns (result: seq<string>)
    ensures result == Split(s, d)
  {
    result := [];
    var pos := 0;
    var ok, token, next := GetLine(s, pos, d);
    while ok
      invariant pos <= |s|
      invariant ok ==> pos < next <= |s| && Split(s[pos..], d) == [token] + Split(s[next..], d)
      invariant !ok ==> Split(s[pos..], d) == []
      invariant result + Split(s[pos..], d) == Split(s, d)
      decreases |s| - pos
    {
      result := result + [token];
      pos := next;
      ok, token, next := GetLine(s, pos, d);
    }
  }
}
