/** JavaScript's `s.split(" ")` and `fields.join(" ")`, through which the
    calculator moves between its buffer and the list of its fields. */
module JsString {

  /** The index of the first `c` in `s`, or `|s|` when there is none. */
  function Find(s: string, c: char): (i: nat)
    ensures i <= |s|
    ensures i < |s| ==> s[i] == c
    ensures forall j :: 0 <= j < i ==> s[j] != c
  {
    if s == [] then 0 else if s[0] == c then 0 else 1 + Find(s[1..], c)
  }

  /** `s.split(" ")`: the pieces of `s` between single spaces, in order.
      There is always at least one piece (`"".split(" ")` is `[""]`), and
      two adjacent spaces give an empty piece. */
  function Split(s: string): (fields: seq<string>)
    ensures |fields| >= 1
    ensures forall k :: 0 <= k < |fields| ==> ' ' !in fields[k]
    decreases |s|
  {
    var i := Find(s, ' ');
    if i == |s| then [s] else [s[..i]] + Split(s[i + 1..])
  }

  /** `fields.join(" ")`. */
  function Join(fields: seq<string>): string {
    if |fields| == 0 then ""
    else if |fields| == 1 then fields[0]
    else fields[0] + " " + Join(fields[1..])
  }

  /** The position just after the last space of `s` (0 when `s` has none):
      `s[..LastSpaceEnd(s)]` is everything up to and including the last space. */
  function LastSpaceEnd(s: string): (k: nat)
    ensures k <= |s|
    ensures k > 0 ==> s[k - 1] == ' '
    ensures ' ' !in s[k..]
  {
    if s == [] then 0
    else if s[|s| - 1] == ' ' then |s|
    else
      var k := LastSpaceEnd(s[..|s| - 1]);
      assert s[k..] == s[..|s| - 1][k..] + [s[|s| - 1]];
      k
  }

  lemma FindAppend(a: string, b: string, c: char)
    ensures Find(a + b, c) == if Find(a, c) < |a| then Find(a, c) else |a| + Find(b, c)
  {
    var i := Find(a + b, c);
    var j := if Find(a, c) < |a| then Find(a, c) else |a| + Find(b, c);
    if j < |a| + |b| {
      assert (a + b)[j] == c;
      if Find(a, c) == |a| {
        forall k | 0 <= k < j ensures (a + b)[k] != c {
          if k >= |a| { assert (a + b)[k] == b[k - |a|]; }
        }
      }
    } else {
      forall k | 0 <= k < |a| + |b| ensures (a + b)[k] != c {
        if k >= |a| { assert (a + b)[k] == b[k - |a|]; }
      }
    }
  }

  lemma FindAbsent(s: string, c: char)
    requires c !in s
    ensures Find(s, c) == |s|
  {
  }

  /** A space-free string is one field. */
  lemma SplitSpaceFree(s: string)
    requires ' ' !in s
    ensures Split(s) == [s]
  {
    FindAbsent(s, ' ');
  }

  /** Splitting at a space splits the two sides separately. */
  lemma {:induction false} SplitAtSpace(a: string, b: string)
    ensures Split(a + " " + b) == Split(a) + Split(b)
    decreases |a|
  {
    var s := a + " " + b;
    var i := Find(a, ' ');
    FindSpaceAfter(a, b);
    if i < |a| {
      var rest := a[i + 1..];
      SliceAfterSpace(a, b, i);
      SplitAtSpace(rest, b);
      assert Split(s) == [a[..i]] + Split(rest + " " + b);
      assert Split(a) == [a[..i]] + Split(rest);
    } else {
      assert s[..|a|] == a && s[|a| + 1..] == b;
      assert Split(s) == [a] + Split(b);
    }
  }

  /** The first space of `a + " " + b` is the first space of `a`, or the
      one added after it. */
  lemma FindSpaceAfter(a: string, b: string)
    ensures Find(a + " " + b, ' ') == Find(a, ' ')
  {
    assert a + " " + b == a + (" " + b);
    FindAppend(a, " " + b, ' ');
    assert Find(" " + b, ' ') == 0;
  }

  lemma SliceAfterSpace(a: string, b: string, i: nat)
    requires i < |a|
    ensures (a + " " + b)[..i] == a[..i]
    ensures (a + " " + b)[i + 1..] == a[i + 1..] + " " + b
  {
  }

  /** Appending space-free text extends the last field. */
  lemma SplitAppendSpaceFree(a: string, b: string)
    requires ' ' !in b
    ensures var f := Split(a); Split(a + b) == f[..|f| - 1] + [f[|f| - 1] + b]
  {
    var k := LastSpaceEnd(a);
    var last := a[k..];
    if k == 0 {
      assert last == a;
      SplitSpaceFree(a);
      SplitSpaceFree(a + b);
    } else {
      var front := a[..k - 1];
      assert a == front + " " + last;
      assert a + b == front + " " + (last + b);
      SplitAtSpace(front, last);
      SplitAtSpace(front, last + b);
      SplitSpaceFree(last);
      SplitSpaceFree(last + b);
      ConsLast(Split(front), [last], b);
    }
  }

  /** Extending the last of the fields `p + g` extends the last of `g`. */
  lemma ConsLast(p: seq<string>, g: seq<string>, b: string)
    requires |g| >= 1
    ensures var f := p + g; f[..|f| - 1] + [f[|f| - 1] + b] == p + (g[..|g| - 1] + [g[|g| - 1] + b])
  {
    var f := p + g;
    assert f[..|f| - 1] == p + g[..|g| - 1];
  }

  /** `join` undoes `split`. */
  lemma {:induction false} JoinSplit(s: string)
    ensures Join(Split(s)) == s
    decreases |s|
  {
    var i := Find(s, ' ');
    if i < |s| {
      JoinSplit(s[i + 1..]);
      assert s == s[..i] + " " + s[i + 1..];
    }
  }

  /** `split` undoes `join` on a nonempty list of space-free fields. */
  lemma {:induction false} SplitJoin(fields: seq<string>)
    requires |fields| >= 1
    requires forall k :: 0 <= k < |fields| ==> ' ' !in fields[k]
    ensures Split(Join(fields)) == fields
  {
    if |fields| == 1 {
      SplitSpaceFree(fields[0]);
    } else {
      SplitJoin(fields[1..]);
      SplitAtSpace(fields[0], Join(fields[1..]));
      SplitSpaceFree(fields[0]);
    }
  }

  /** Joining with one more field adds a space and the field. */
  lemma {:induction false} JoinAppend(fields: seq<string>, x: string)
    ensures Join(fields + [x]) == if fields == [] then x else Join(fields) + " " + x
  {
    if |fields| > 1 {
      assert (fields + [x])[1..] == fields[1..] + [x];
      JoinAppend(fields[1..], x);
    }
  }

  /** The last field of `s` is what follows its last space, and putting a
      different last field in its place keeps everything up to and
      including that space. */
  lemma SplitLastField(s: string, x: string)
    ensures var f := Split(s); f[|f| - 1] == s[LastSpaceEnd(s)..]
    ensures var f := Split(s); Join(f[..|f| - 1] + [x]) == s[..LastSpaceEnd(s)] + x
  {
    var k := LastSpaceEnd(s);
    if k == 0 {
      SplitSpaceFree(s);
      assert s[k..] == s;
    } else {
      var a, b := s[..k - 1], s[k..];
      assert s == a + " " + b;
      SplitAtSpace(a, b);
      SplitSpaceFree(b);
      var f := Split(s);
      assert f[..|f| - 1] == Split(a);
      JoinAppend(Split(a), x);
      JoinSplit(a);
    }
  }
}
