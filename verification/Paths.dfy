/**
 * The string work behind an image URL: Foundation's `components(separatedBy: "/")`
 * and taking the last of those components.
 */
module Paths {

  const Separator: char := '/'

  /** The pieces of `s` between separators, as `components(separatedBy: "/")` returns them:
      never empty, and an empty string between two adjacent separators or at either end. */
  function Components(s: string): (parts: seq<string>)
    ensures |parts| >= 1
    ensures forall i :: 0 <= i < |parts| ==> Separator !in parts[i]
    ensures Separator !in s ==> parts == [s]
    ensures Separator in s ==> |parts| > 1
  {
    if s == [] then [""]
    else
      var rest := Components(s[1..]);
      if s[0] == Separator then [""] + rest
      else
        assert s == [s[0]] + s[1..];
        assert Separator in s ==> Separator in s[1..];
        [[s[0]] + rest[0]] + rest[1..]
  }

  /** The inverse of `Components`: the parts glued back with the separator. */
  function Join(parts: seq<string>): string
    requires |parts| >= 1
  {
    if |parts| == 1 then parts[0] else parts[0] + [Separator] + Join(parts[1..])
  }

  /** Splitting loses nothing: joining the components gives the string back. */
  lemma {:induction false} JoinComponents(s: string)
    ensures Join(Components(s)) == s
  {
    if s != [] {
      var rest := Components(s[1..]);
      JoinComponents(s[1..]);
      if s[0] == Separator {
        assert Components(s) == [""] + rest;
        assert Components(s)[1..] == rest;
      } else if |rest| == 1 {
        assert Components(s) == [[s[0]] + rest[0]];
        assert s == [s[0]] + s[1..];
      } else {
        var parts := Components(s);
        assert parts[0] == [s[0]] + rest[0];
        assert parts[1..] == rest[1..];
        calc {
          Join(parts);
          parts[0] + [Separator] + Join(parts[1..]);
          [s[0]] + (rest[0] + [Separator] + Join(rest[1..]));
          [s[0]] + Join(rest);
          [s[0]] + s[1..];
          s;
        }
      }
    }
  }

  /** A word without separators glued in front of `t` only extends the first component of `t`. */
  lemma {:induction false} ComponentsOfPrefixed(w: string, t: string)
    requires Separator !in w
    ensures Components(w + t) == [w + Components(t)[0]] + Components(t)[1..]
  {
    if w == [] {
      assert w + t == t;
      assert w + Components(t)[0] == Components(t)[0];
      assert Components(t) == [Components(t)[0]] + Components(t)[1..];
    } else {
      assert (w + t)[1..] == w[1..] + t;
      assert Separator !in w[1..];
      ComponentsOfPrefixed(w[1..], t);
      assert (w + t)[0] == w[0];
      assert [w[0]] + (w[1..] + Components(t)[0]) == w + Components(t)[0];
    }
  }

  /** Splitting is also the inverse of joining, for parts that hold no separator. */
  lemma {:induction false} ComponentsJoin(parts: seq<string>)
    requires |parts| >= 1
    requires forall i :: 0 <= i < |parts| ==> Separator !in parts[i]
    ensures Components(Join(parts)) == parts
  {
    if |parts| > 1 {
      var tail := Join(parts[1..]);
      ComponentsJoin(parts[1..]);
      assert Separator !in parts[0];
      ComponentsOfPrefixed(parts[0], [Separator] + tail);
      assert ([Separator] + tail)[1..] == tail;
      var split := Components([Separator] + tail);
      assert split == [""] + parts[1..];
      assert split[0] == "" && split[1..] == parts[1..];
      assert parts[0] + split[0] == parts[0];
      assert Join(parts) == parts[0] + ([Separator] + tail);
      assert parts == [parts[0]] + parts[1..];
    }
  }

  /** `t` is the text after the last separator of `s`, or the whole of `s` when it has none:
      a suffix of `s` without separators that starts at the front of `s` or right after a separator. */
  ghost predicate IsTextAfterLastSlash(s: string, t: string)
  {
    && |t| <= |s|
    && t == s[|s| - |t|..]
    && Separator !in t
    && (|t| == |s| || s[|s| - |t| - 1] == Separator)
  }

  /** The specification pins the text down: at most one string satisfies it. */
  lemma TextAfterLastSlashIsUnique(s: string, t1: string, t2: string)
    requires IsTextAfterLastSlash(s, t1) && IsTextAfterLastSlash(s, t2)
    ensures t1 == t2
  {
  }

  /** The last component is the text after the last separator. */
  lemma {:induction false} LastComponentIsTextAfterLastSlash(s: string)
    ensures var parts := Components(s); IsTextAfterLastSlash(s, parts[|parts| - 1])
  {
    if s != [] {
      var rest := Components(s[1..]);
      LastComponentIsTextAfterLastSlash(s[1..]);
      var last := rest[|rest| - 1];
      assert s[1..][|s| - 1 - |last|..] == s[|s| - |last|..];
      if s[0] == Separator {
        assert Components(s)[|Components(s)| - 1] == last;
      } else if |rest| == 1 {
        assert rest == [s[1..]];
        assert Components(s) == [s];
      } else {
        assert Components(s)[|Components(s)| - 1] == last;
        assert Separator in s[1..];
        if |last| == |s| - 1 {
          assert false;
        }
      }
    }
  }

  /** `components(separatedBy: "/").last`: the text after the last separator. */
  function LastComponent(s: string): (t: string)
    ensures IsTextAfterLastSlash(s, t)
  {
    LastComponentIsTextAfterLastSlash(s);
    var parts := Components(s);
    parts[|parts| - 1]
  }
}
