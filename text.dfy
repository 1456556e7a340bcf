/** String splitting and joining on a one-character separator, as JavaScript's
    `String.prototype.split(c)` and `Array.prototype.join(c)` do it. */
module Text {

  /** The pieces of `s` between the occurrences of `c`: `"a b".split(' ')`
      is `["a", "b"]`, `"".split(' ')` is `[""]`, and `n` separators give
      `n + 1` pieces. */
  function Split(s: string, c: char): (r: seq<string>)
    ensures |r| >= 1
    ensures forall i :: 0 <= i < |r| ==> c !in r[i]
  {
    if s == [] then [""]
    else
      var rest := Split(s[1..], c);
      if s[0] == c then [""] + rest
      else [[s[0]] + rest[0]] + rest[1..]
  }

  /** The pieces glued back together with `c` between neighbours; `[].join(c)`
      is `""`. Splitting a join of separator-free pieces gives back the
      pieces. */
  function Join(parts: seq<string>, c: char): (r: string)
    ensures |parts| >= 1 && (forall i :: 0 <= i < |parts| ==> c !in parts[i]) ==> Split(r, c) == parts
  {
    if |parts| == 0 then ""
    else if |parts| == 1 then
      assert c !in parts[0] ==> Split(parts[0], c) == [parts[0]] by {
        SplitCount(parts[0], c);
      }
      parts[0]
    else
      var rest := Join(parts[1..], c);
      assert c !in parts[0] ==> Split(parts[0] + [c] + rest, c) == [parts[0]] + Split(rest, c) by {
        if c !in parts[0] {
          SplitPrefix(parts[0], c, rest);
        }
      }
      assert (forall i :: 0 <= i < |parts| ==> c !in parts[i]) ==> (forall i :: 0 <= i < |parts| - 1 ==> c !in parts[1..][i]);
      assert parts == [parts[0]] + parts[1..];
      parts[0] + [c] + rest
  }

  /** Joining the pieces of a split gives back the original string. */
  lemma {:induction false} JoinSplit(s: string, c: char)
    ensures Join(Split(s, c), c) == s
  {
    if s != [] {
      var rest := Split(s[1..], c);
      JoinSplit(s[1..], c);
      if s[0] == c {
        assert Split(s, c) == [""] + rest;
        assert Join([""] + rest, c) == "" + [c] + Join(rest, c);
        assert s == [c] + s[1..];
      } else if |rest| == 1 {
        assert Split(s, c) == [[s[0]] + rest[0]];
        assert s == [s[0]] + s[1..];
      } else {
        var r := Split(s, c);
        assert r == [[s[0]] + rest[0]] + rest[1..];
        assert r[1..] == rest[1..];
        assert Join(r, c) == [s[0]] + rest[0] + [c] + Join(rest[1..], c);
        assert Join(rest, c) == rest[0] + [c] + Join(rest[1..], c);
        assert s == [s[0]] + s[1..];
      }
    }
  }

  /** A string without the separator splits into itself alone; one with it
      splits into at least two pieces. */
  lemma {:induction false} SplitCount(s: string, c: char)
    ensures (|Split(s, c)| == 1) <==> c !in s
    ensures c !in s ==> Split(s, c) == [s]
  {
    if s != [] {
      SplitCount(s[1..], c);
      assert s == [s[0]] + s[1..];
      assert c in s <==> s[0] == c || c in s[1..];
    }
  }

  /** A piece without the separator, followed by the separator, is split off
      as the first piece. */
  lemma {:induction false} SplitPrefix(x: string, c: char, y: string)
    requires c !in x
    ensures Split(x + [c] + y, c) == [x] + Split(y, c)
  {
    var s := x + [c] + y;
    if x == [] {
      assert s == [c] + y;
      assert s[1..] == y;
    } else {
      assert s[0] == x[0] != c;
      assert s[1..] == x[1..] + [c] + y;
      SplitPrefix(x[1..], c, y);
      assert [x[0]] + x[1..] == x;
    }
  }

  /** The first piece of a split is the longest separator-free prefix:
      JavaScript's `s.split(c)[0]`. When the separator occurs, the other
      pieces are the split of what follows its first occurrence. */
  lemma {:induction false} SplitFirst(s: string, c: char)
    ensures var h := Split(s, c)[0];
      && |h| <= |s| && s[..|h|] == h && c !in h
      && (|h| < |s| ==> s[|h|] == c && Split(s, c)[1..] == Split(s[|h| + 1..], c))
      && (|h| == |s| <==> c !in s)
  {
    if s != [] {
      SplitFirst(s[1..], c);
      var rest := Split(s[1..], c);
      if s[0] != c {
        var h := Split(s, c)[0];
        assert h == [s[0]] + rest[0];
        assert s[1..][|rest[0]|..] == s[|h|..];
        assert s == [s[0]] + s[1..];
        if |h| < |s| {
          assert s[1..][|rest[0]| + 1..] == s[|h| + 1..];
        }
      }
    }
  }
}
