/** The `std::string` operations the server and the client build their
    text handling from: `find`, the erase-remove idiom and splitting at a
    separator. */
module Text {
  import opened Wrappers

  /** `isspace` in the C locale: space, tab, line feed, vertical tab,
      form feed and carriage return. */
  predicate IsSpace(c: char)
  {
    c == ' ' || c == '\t' || c == '\n' || c == '\r' || c as int == 0x0B || c as int == 0x0C
  }

  predicate NoSpace(s: string)
  {
    forall i :: 0 <= i < |s| ==> !IsSpace(s[i])
  }

  predicate AllSpace(s: string)
  {
    forall i :: 0 <= i < |s| ==> IsSpace(s[i])
  }

  /** `s.erase(std::remove_if(s.begin(), s.end(), ::isspace), s.end())`:
      `s` with every whitespace character taken out, order kept. */
  function StripSpace(s: string): (r: string)
    ensures |r| <= |s|
    ensures NoSpace(r)
  {
    if s == [] then [] else (if IsSpace(s[0]) then [] else [s[0]]) + StripSpace(s[1..])
  }

  lemma NoSpaceConcat(a: string, b: string)
    requires NoSpace(a) && NoSpace(b)
    ensures NoSpace(a + b)
  {
  }

  lemma {:induction false} StripSpaceConcat(a: string, b: string)
    ensures StripSpace(a + b) == StripSpace(a) + StripSpace(b)
  {
    if a == [] {
      assert a + b == b;
    } else {
      assert (a + b)[1..] == a[1..] + b;
      StripSpaceConcat(a[1..], b);
    }
  }

  /** A string without whitespace is left as it is. */
  lemma {:induction false} StripSpaceNoSpace(s: string)
    requires NoSpace(s)
    ensures StripSpace(s) == s
  {
    if s != [] {
      StripSpaceNoSpace(s[1..]);
    }
  }

  /** A string of whitespace disappears. */
  lemma {:induction false} StripSpaceAllSpace(s: string)
    requires AllSpace(s)
    ensures StripSpace(s) == []
  {
    if s != [] {
      StripSpaceAllSpace(s[1..]);
    }
  }

  /** `s.erase(std::remove(s.begin(), s.end(), c), s.end())`: `s` with
      every `c` taken out, order kept. */
  function RemoveChar(s: string, c: char): (r: string)
    ensures |r| <= |s|
    ensures forall d :: d in r <==> d in s && d != c
    ensures NoSpace(s) ==> NoSpace(r)
  {
    if s == [] then [] else (if s[0] == c then [] else [s[0]]) + RemoveChar(s[1..], c)
  }

  lemma {:induction false} RemoveCharConcat(a: string, b: string, c: char)
    ensures RemoveChar(a + b, c) == RemoveChar(a, c) + RemoveChar(b, c)
  {
    if a == [] {
      assert a + b == b;
    } else {
      var head := if a[0] == c then [] else [a[0]];
      assert (a + b)[0] == a[0];
      assert (a + b)[1..] == a[1..] + b;
      RemoveCharConcat(a[1..], b, c);
      assert RemoveChar(a + b, c) == head + (RemoveChar(a[1..], c) + RemoveChar(b, c));
      assert RemoveChar(a, c) == head + RemoveChar(a[1..], c);
    }
  }

  /** Removing a character the string does not hold changes nothing. */
  lemma {:induction false} RemoveCharAbsent(s: string, c: char)
    requires c !in s
    ensures RemoveChar(s, c) == s
  {
    if s != [] {
      RemoveCharAbsent(s[1..], c);
    }
  }

  /** `s.find(c, from)`: the first index at or after `from` that holds
      `c`, or `None` for `npos`. */
  function FindFrom(s: string, c: char, from: nat): (r: Option<nat>)
    ensures r.Some? ==> from <= r.value < |s| && s[r.value] == c
    ensures r.Some? ==> forall j :: from <= j < r.value ==> s[j] != c
    ensures r.None? ==> forall j :: from <= j < |s| ==> s[j] != c
    decreases |s| - from
  {
    if from >= |s| then None
    else if s[from] == c then Some(from)
    else FindFrom(s, c, from + 1)
  }

  /** `s.find(c)` */
  function Find(s: string, c: char): Option<nat>
  {
    FindFrom(s, c, 0)
  }

  /** The first `c` at or after `from` is at `k` exactly when `k` holds
      `c` and nothing between `from` and `k` does. */
  lemma FindFromAt(s: string, c: char, from: nat, k: nat)
    requires from <= k < |s| && s[k] == c
    requires forall j :: from <= j < k ==> s[j] != c
    ensures FindFrom(s, c, from) == Some(k)
  {
  }

  /** `s` cut at every `sep`, the pieces in order. */
  function Split(s: string, sep: char): (r: seq<string>)
    ensures |r| > 0
    decreases |s|
  {
    match Find(s, sep)
    case None => [s]
    case Some(k) => [s[..k]] + Split(s[k + 1..], sep)
  }

  /** A piece without the separator, then the separator, comes back as
      the first piece. */
  lemma SplitCons(a: string, sep: char, b: string)
    requires sep !in a
    ensures Split(a + ([sep] + b), sep) == [a] + Split(b, sep)
  {
    var s := a + ([sep] + b);
    FindFromAt(s, sep, 0, |a|);
    assert s[..|a|] == a;
    assert s[|a| + 1..] == b;
  }

  /** A string without the separator is one piece. */
  lemma SplitNone(a: string, sep: char)
    requires sep !in a
    ensures Split(a, sep) == [a]
  {
  }

  /** Separator-free pieces joined by the separator split back into
      those pieces: two, three and four of them. */
  lemma SplitTwo(c: string, d: string, sep: char)
    requires sep !in c && sep !in d
    ensures Split(c + ([sep] + d), sep) == [c, d]
  {
    SplitCons(c, sep, d);
    SplitNone(d, sep);
  }

  lemma SplitThree(b: string, c: string, d: string, sep: char)
    requires sep !in b && sep !in c && sep !in d
    ensures Split(b + ([sep] + (c + ([sep] + d))), sep) == [b, c, d]
  {
    SplitCons(b, sep, c + ([sep] + d));
    SplitTwo(c, d, sep);
  }

  lemma SplitFour(a: string, b: string, c: string, d: string, sep: char)
    requires sep !in a && sep !in b && sep !in c && sep !in d
    ensures Split(a + ([sep] + (b + ([sep] + (c + ([sep] + d))))), sep) == [a, b, c, d]
  {
    SplitCons(a, sep, b + ([sep] + (c + ([sep] + d))));
    SplitThree(b, c, d, sep);
  }
}
