/** The JavaScript string operations the service relies on:
    `toLowerCase` (restricted to ASCII letters), `split(' ')` and `includes`. */
module Text {

  function LowerChar(c: char): char
  {
    if 'A' <= c <= 'Z' then (c as int + 32) as char else c
  }

  /** `s.toLowerCase()` on the ASCII range; every other character is kept. */
  function Lower(s: string): string
  {
    if s == [] then [] else [LowerChar(s[0])] + Lower(s[1..])
  }

  /** Lower-casing keeps the length and maps each character on its own. */
  lemma {:induction false} LowerAt(s: string, i: nat)
    requires i < |s|
    ensures |Lower(s)| == |s| && Lower(s)[i] == LowerChar(s[i])
  {
    if i > 0 {
      LowerAt(s[1..], i - 1);
    } else {
      LowerLength(s);
    }
  }

  lemma {:induction false} LowerLength(s: string)
    ensures |Lower(s)| == |s|
  {
    if s != [] {
      LowerLength(s[1..]);
    }
  }

  /** A law of `toLowerCase` on its own: lower-casing twice is lower-casing
      once. No other member depends on it. */
  lemma {:induction false} LowerIdempotent(s: string)
    ensures Lower(Lower(s)) == Lower(s)
  {
    if s != [] {
      LowerIdempotent(s[1..]);
      var l := Lower(s);
      assert l == [LowerChar(s[0])] + Lower(s[1..]);
      assert l[1..] == Lower(s[1..]);
    }
  }

  /** `s.split(' ')`: the pieces between single space characters. Two adjacent
      spaces, or a space at either end, give an empty piece, and the empty
      string gives one empty piece. */
  function Split(s: string): (r: seq<string>)
    ensures |r| >= 1
    decreases |s|
  {
    if s == [] then [""]
    else
      var rest := Split(s[1..]);
      if s[0] == ' ' then [""] + rest
      else [[s[0]] + rest[0]] + rest[1..]
  }

  /** No piece contains the separator. */
  lemma {:induction false} SplitPiecesHaveNoSpace(s: string)
    ensures forall k :: 0 <= k < |Split(s)| ==> ' ' !in Split(s)[k]
    decreases |s|
  {
    if s != [] {
      SplitPiecesHaveNoSpace(s[1..]);
      var rest := Split(s[1..]);
      if s[0] != ' ' {
        var r := Split(s);
        assert r[0] == [s[0]] + rest[0];
        assert forall k :: 1 <= k < |r| ==> r[k] == rest[k];
      }
    }
  }

  /** `pieces.join(' ')`, the inverse of Split. */
  function Join(pieces: seq<string>): string
    decreases |pieces|
  {
    if pieces == [] then ""
    else if |pieces| == 1 then pieces[0]
    else pieces[0] + " " + Join(pieces[1..])
  }

  /** The number of space characters in `s`. */
  function SpaceCount(s: string): nat
  {
    if s == [] then 0 else (if s[0] == ' ' then 1 else 0) + SpaceCount(s[1..])
  }

  /** Split at a non-space first character: it extends the first piece. */
  lemma SplitNonSpace(s: string)
    requires s != [] && s[0] != ' '
    ensures Split(s) == [[s[0]] + Split(s[1..])[0]] + Split(s[1..])[1..]
  {
  }

  /** Split at a space: an empty piece, then the rest. */
  lemma SplitSpace(s: string)
    requires s != [] && s[0] == ' '
    ensures Split(s) == [""] + Split(s[1..])
  {
  }

  /** Join of two or more pieces: the first, a space, the join of the rest. */
  lemma JoinCons(pieces: seq<string>)
    requires |pieces| >= 2
    ensures Join(pieces) == pieces[0] + " " + Join(pieces[1..])
  {
  }

  /** Join with a longer first piece. */
  lemma JoinLongerHead(c: char, pieces: seq<string>)
    requires |pieces| >= 1
    ensures Join([[c] + pieces[0]] + pieces[1..]) == [c] + Join(pieces)
  {
    var head := [c] + pieces[0];
    if |pieces| >= 2 {
      assert pieces == [pieces[0]] + pieces[1..];
      JoinLongerHeadMany(c, pieces[0], pieces[1..]);
    } else {
      assert [head] + pieces[1..] == [head];
    }
  }

  lemma JoinLongerHeadMany(c: char, first: string, tail: seq<string>)
    requires |tail| >= 1
    ensures Join([[c] + first] + tail) == [c] + Join([first] + tail)
  {
    var rest := Join(tail);
    calc {
      Join([[c] + first] + tail);
    == { JoinOfCons([c] + first, tail); }
      ([c] + first) + (" " + rest);
    == { ConcatAssoc([c], first, " " + rest); }
      [c] + (first + (" " + rest));
    == { JoinOfCons(first, tail); }
      [c] + Join([first] + tail);
    }
  }

  lemma JoinOfCons(first: string, tail: seq<string>)
    requires |tail| >= 1
    ensures Join([first] + tail) == first + (" " + Join(tail))
  {
    var p := [first] + tail;
    assert p[0] == first && p[1..] == tail;
    assert Join(p) == first + " " + Join(tail);
  }

  lemma ConcatAssoc(a: string, b: string, c: string)
    ensures (a + b) + c == a + (b + c)
  {
  }

  /** Joining the pieces again with single spaces gives back the string. */
  lemma {:induction false} JoinSplit(s: string)
    ensures Join(Split(s)) == s
    decreases |s|
  {
    if s != [] {
      var rest := Split(s[1..]);
      JoinSplit(s[1..]);
      if s[0] == ' ' {
        SplitSpace(s);
        JoinCons([""] + rest);
        assert ([""] + rest)[1..] == rest;
      } else {
        SplitNonSpace(s);
        JoinLongerHead(s[0], rest);
      }
      assert s == [s[0]] + s[1..];
    }
  }

  /** Splitting a join of space-free pieces gives back the pieces. */
  lemma {:induction false} SplitJoin(pieces: seq<string>)
    requires |pieces| >= 1
    requires forall k :: 0 <= k < |pieces| ==> ' ' !in pieces[k]
    ensures Split(Join(pieces)) == pieces
    decreases |pieces|, |pieces[0]|
  {
    var p := pieces[0];
    if p == [] {
      if |pieces| > 1 {
        var tail := pieces[1..];
        SplitJoin(tail);
        var s := Join(pieces);
        JoinCons(pieces);
        assert s == " " + Join(tail);
        assert s[1..] == Join(tail);
        SplitSpace(s);
        assert pieces == [""] + tail;
      }
    } else {
      var q := pieces[0 := p[1..]];
      assert ' ' !in q[0] by { assert forall x :: x in p[1..] ==> x in p; }
      assert forall k :: 1 <= k < |q| ==> q[k] == pieces[k];
      SplitJoin(q);
      assert p == [p[0]] + q[0];
      assert pieces == [[p[0]] + q[0]] + q[1..];
      JoinLongerHead(p[0], q);
      var s := Join(pieces);
      assert s[0] == p[0] && s[1..] == Join(q);
      assert p[0] != ' ' by { assert p[0] in p; }
      SplitNonSpace(s);
    }
  }

  /** Split yields one piece more than there are spaces. */
  lemma {:induction false} SplitLength(s: string)
    ensures |Split(s)| == SpaceCount(s) + 1
    decreases |s|
  {
    if s != [] {
      SplitLength(s[1..]);
    }
  }

  /** `s.includes(t)`: `t` occurs in `s` at some position. */
  function Includes(s: string, t: string): bool
    decreases |s|
  {
    t <= s || (s != [] && Includes(s[1..], t))
  }

  /** `t` occurs in `s` starting at position `i`. */
  ghost predicate OccursAt(s: string, t: string, i: int)
  {
    0 <= i && i + |t| <= |s| && s[i..i + |t|] == t
  }

  /** Includes means occurring as a contiguous block at some position. */
  lemma {:induction false} IncludesIff(s: string, t: string)
    ensures Includes(s, t) <==> exists i :: OccursAt(s, t, i)
    decreases |s|
  {
    if t <= s {
      assert OccursAt(s, t, 0);
    } else if s != [] {
      IncludesIff(s[1..], t);
      if Includes(s[1..], t) {
        var i :| OccursAt(s[1..], t, i);
        assert s[i + 1..i + 1 + |t|] == s[1..][i..i + |t|];
        assert OccursAt(s, t, i + 1);
      }
      if exists i :: OccursAt(s, t, i) {
        var i :| OccursAt(s, t, i);
        if i > 0 {
          assert s[1..][i - 1..i - 1 + |t|] == s[i..i + |t|];
          assert OccursAt(s[1..], t, i - 1);
        }
      }
    }
  }

  /** Every string includes the empty string. */
  lemma IncludesEmpty(s: string)
    ensures Includes(s, "")
  {
  }
}
