/** Bytes, the line terminator, and the logical lines of a byte string.

    `Lines(s)` is the reference meaning of "split `s` on EOL": the terminated
    lines of `s`, in order, without their terminators; `Tail(s)` is what is left
    after the last terminator (a line still being read).  `Join` is the inverse:
    every line followed by one terminator. */
module LineSplit {

  newtype byte = x: int | 0 <= x < 256

  /** The line terminator, `const EOL: u8 = 0x0A`. */
  const EOL: byte := 0x0A

  type Line = seq<byte>

  /** The position of the first terminator in `s`. */
  function FirstEol(s: seq<byte>): (i: nat)
    requires EOL in s
    ensures i < |s| && s[i] == EOL && EOL !in s[..i]
  {
    if s[0] == EOL then 0
    else
      assert EOL in s[1..] by { var k :| 0 <= k < |s| && s[k] == EOL; assert s[1..][k - 1] == EOL; }
      var j := FirstEol(s[1..]);
      assert s[..j + 1] == [s[0]] + s[1..][..j];
      1 + j
  }

  /** The terminated lines of `s`, in order, without their terminators. */
  function Lines(s: seq<byte>): seq<Line>
    decreases |s|
  {
    if EOL !in s then []
    else
      var i := FirstEol(s);
      [s[..i]] + Lines(s[i + 1..])
  }

  /** The bytes after the last terminator of `s`. */
  function Tail(s: seq<byte>): seq<byte>
    decreases |s|
  {
    if EOL !in s then s else Tail(s[FirstEol(s) + 1..])
  }

  /** Every line followed by one terminator. */
  function Join(ls: seq<Line>): seq<byte>
  {
    if ls == [] then [] else ls[0] + [EOL] + Join(ls[1..])
  }

  /** No line holds a terminator. */
  ghost predicate EolFree(ls: seq<Line>)
  {
    forall i :: 0 <= i < |ls| ==> EOL !in ls[i]
  }

  /** Splitting at the first terminator: a line with no terminator, then the rest. */
  lemma LinesCons(x: seq<byte>, y: seq<byte>)
    requires EOL !in x
    ensures Lines(x + [EOL] + y) == [x] + Lines(y)
    ensures Tail(x + [EOL] + y) == Tail(y)
  {
    var s := x + [EOL] + y;
    assert s[|x|] == EOL;
    var i := FirstEol(s);
    assert forall k | 0 <= k < |x| :: s[k] == x[k];
    assert i >= |x|;
    assert s[..i] == x;
    assert s[i + 1..] == y;
  }

  /** The tail never holds a terminator. */
  lemma {:induction false} TailEolFree(s: seq<byte>)
    ensures EOL !in Tail(s)
    decreases |s|
  {
    if EOL in s {
      TailEolFree(s[FirstEol(s) + 1..]);
    }
  }

  /** No line is lost, duplicated or altered: joining the lines back and adding the
      tail gives `s` again, and no line holds a terminator. */
  lemma {:induction false} JoinLines(s: seq<byte>)
    ensures Join(Lines(s)) + Tail(s) == s
    ensures EolFree(Lines(s))
    decreases |s|
  {
    if EOL in s {
      var i := FirstEol(s);
      var x, rest := s[..i], s[i + 1..];
      assert s == x + [EOL] + rest;
      JoinLines(rest);
      LinesCons(x, rest);
      var ls := Lines(rest);
      assert Join([x] + ls) == x + [EOL] + Join(ls) by {
        assert ([x] + ls)[1..] == ls;
      }
      assert EolFree([x] + ls) by {
        forall k | 0 <= k < |[x] + ls| ensures EOL !in ([x] + ls)[k] {
          if k > 0 { assert ([x] + ls)[k] == ls[k - 1]; }
        }
      }
      ConsJoinAssoc(x, Join(ls), Tail(rest));
    }
  }

  /** Regrouping a line, its EOL, joined lines and a tail. */
  lemma ConsJoinAssoc(x: seq<byte>, j: seq<byte>, t: seq<byte>)
    ensures x + [EOL] + j + t == x + [EOL] + (j + t)
  {
  }

  /** The split is unique: lines without terminators, joined, followed by a
      terminator-free tail, split back into exactly those lines and that tail. */
  lemma {:induction false} LinesJoin(ls: seq<Line>, t: seq<byte>)
    requires EolFree(ls) && EOL !in t
    ensures Lines(Join(ls) + t) == ls
    ensures Tail(Join(ls) + t) == t
  {
    if ls != [] {
      assert EolFree(ls[1..]) by {
        forall i | 0 <= i < |ls[1..]| ensures EOL !in ls[1..][i] { assert ls[1..][i] == ls[i + 1]; }
      }
      LinesJoin(ls[1..], t);
      assert Join(ls) + t == ls[0] + [EOL] + (Join(ls[1..]) + t);
      assert EOL !in ls[0];
      LinesCons(ls[0], Join(ls[1..]) + t);
      assert ls == [ls[0]] + ls[1..];
    }
  }

  /** One more line joined: its bytes, then a terminator. */
  lemma JoinSnoc(ls: seq<Line>, x: Line)
    requires EolFree(ls) && EOL !in x
    ensures Join(ls + [x]) == Join(ls) + x + [EOL]
    ensures EolFree(ls + [x])
  {
    JoinAppend(ls, [x]);
    assert Join([x]) == x + [EOL] + Join([]);
  }

  /** Joining distributes over concatenation of line lists. */
  lemma {:induction false} JoinAppend(xs: seq<Line>, ys: seq<Line>)
    ensures Join(xs + ys) == Join(xs) + Join(ys)
  {
    if xs == [] {
      assert xs + ys == ys;
    } else {
      assert (xs + ys)[0] == xs[0];
      assert (xs + ys)[1..] == xs[1..] + ys;
      JoinAppend(xs[1..], ys);
      calc {
        Join(xs + ys);
        xs[0] + [EOL] + Join(xs[1..] + ys);
        xs[0] + [EOL] + (Join(xs[1..]) + Join(ys));
      }
    }
  }

  /** Reading `a` and then `b`: the lines of `a`, then the lines that the pending tail
      of `a` followed by `b` completes; the new tail is that of the tail of `a` and `b`. */
  lemma {:induction false} LinesAppend(a: seq<byte>, b: seq<byte>)
    ensures Lines(a + b) == Lines(a) + Lines(Tail(a) + b)
    ensures Tail(a + b) == Tail(Tail(a) + b)
    decreases |a|
  {
    if EOL in a {
      var i := FirstEol(a);
      var x, y := a[..i], a[i + 1..];
      assert a == x + [EOL] + y;
      assert a + b == x + [EOL] + (y + b);
      LinesCons(x, y);
      LinesCons(x, y + b);
      LinesAppend(y, b);
    }
  }

  /** `LinesJoin`, phrased for a byte string known to be such a join. */
  lemma SplitIs(s: seq<byte>, ls: seq<Line>, t: seq<byte>)
    requires EolFree(ls) && EOL !in t && s == Join(ls) + t
    ensures Lines(s) == ls && Tail(s) == t
  {
    LinesJoin(ls, t);
  }

  /** One more byte: a terminator completes the pending tail as a line; any other
      byte extends the tail. */
  lemma LinesSnoc(s: seq<byte>, b: byte)
    ensures Lines(s + [b]) == Lines(s) + (if b == EOL then [Tail(s)] else [])
    ensures Tail(s + [b]) == if b == EOL then [] else Tail(s) + [b]
  {
    LinesAppend(s, [b]);
    var t := Tail(s);
    TailEolFree(s);
    if b == EOL {
      LinesCons(t, []);
      assert t + [EOL] + [] == t + [b];
    } else {
      assert EOL !in t + [b];
    }
  }
}
