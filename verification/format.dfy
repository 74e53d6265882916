/** Rendering of one key/value pair (iniq.c `quote_str`, `print_pair`).

    `print_pair` rewrites the first `%k` and the first `%v` of the user's
    format into `%s` and hands the quoted key and value to `printf` in the
    order the two placeholders occur. `Printf` below is that call restricted
    to `%s` conversions; the lemmas at the end state what the mechanism
    means: each placeholder is replaced in place. */
module Format {
  import opened Outcomes
  import opened Text
  import opened IniModel

  const KeyMark: string := "%k"
  const ValueMark: string := "%v"
  const SectionMark: string := "%s"

  /** `s` starts and ends with the quote character `q`. */
  predicate WrappedIn(s: string, q: char) {
    |s| > 0 && s[0] == q && s[|s| - 1] == q
  }

  predicate AlreadyQuoted(s: string) {
    WrappedIn(s, '\'') || WrappedIn(s, '"')
  }

  /** Shell-style quoting: a string with a space is wrapped in single quotes
      unless it is already wrapped in matching quotes. */
  function Quote(s: string): (r: string)
    ensures r == s <==> ' ' !in s || AlreadyQuoted(s)
    ensures r != s ==> r == ['\''] + s + ['\''] && |r| == |s| + 2
    ensures ' ' in r <==> ' ' in s
    ensures ' ' in r ==> AlreadyQuoted(r)
  {
    if ' ' !in s || AlreadyQuoted(s) then s else "'" + s + "'"
  }

  /** Quoting twice is quoting once. */
  lemma QuoteIdempotent(s: string)
    ensures Quote(Quote(s)) == Quote(s)
  {
  }

  /** `printf` as the renderer uses it: every `%s` takes the next argument,
      every other character is copied. */
  function Printf(f: string, args: seq<string>): string
    decreases |f|
  {
    if |f| == 0 then ""
    else if |f| >= 2 && f[0] == '%' && f[1] == 's' then
      (if |args| > 0 then args[0] else "") + Printf(f[2..], if |args| > 0 then args[1..] else [])
    else [f[0]] + Printf(f[1..], args)
  }

  lemma {:induction false} PrintfPlain(x: string, rest: string, args: seq<string>)
    requires '%' !in x
    ensures Printf(x + rest, args) == x + Printf(rest, args)
    decreases |x|
  {
    if |x| > 0 {
      var s := x + rest;
      assert x[0] in x;
      assert s[0] == x[0] != '%';
      assert s[1..] == x[1..] + rest;
      assert Printf(s, args) == [s[0]] + Printf(s[1..], args);
      PrintfPlain(x[1..], rest, args);
      assert [x[0]] + x[1..] == x;
    } else {
      assert x + rest == rest;
    }
  }

  lemma PrintfHole(rest: string, args: seq<string>)
    requires |args| > 0
    ensures Printf(SectionMark + rest, args) == args[0] + Printf(rest, args[1..])
  {
    assert (SectionMark + rest)[2..] == rest;
  }

  /** A pair format is refused when it lacks `%k` and either only keys are
      wanted or it lacks `%v` as well. */
  predicate PairFormatInvalid(f: string, keysOnly: bool) {
    !Contains(f, KeyMark) && (keysOnly || !Contains(f, ValueMark))
  }

  /** One pair, without the separator that may follow it. With no format:
      the key alone in keys mode, `key=value` otherwise. */
  function RenderPair(fmt: Option<string>, p: Pair, keysOnly: bool): (r: Result<string, Error>)
    ensures r.Failure? <==> fmt.Some? && PairFormatInvalid(fmt.value, keysOnly)
    ensures r.Failure? ==> r.error == BadPairFormat
    ensures fmt.None? && keysOnly ==> r == Success(Quote(p.key))
    ensures fmt.None? && !keysOnly ==> r == Success(Quote(p.key) + "=" + Quote(p.value))
  {
    var key := Quote(p.key);
    var val := Quote(p.value);
    match fmt
    case None => Success(if keysOnly then key else key + "=" + val)
    case Some(f) =>
      var k := IndexOf(f, KeyMark);
      var v := IndexOf(f, ValueMark);
      if k.None? && (keysOnly || v.None?) then Failure(BadPairFormat)
      else
        var f1 := if k.Some? then f[k.value + 1 := 's'] else f;
        var f2 := if v.Some? then f1[v.value + 1 := 's'] else f1;
        var args :=
          if keysOnly && v.None? then [key]
          else if (k.None? && v.Some?) || (k.Some? && v.Some? && k.value > v.value) then [val, key]
          else [key, val];
        Success(Printf(f2, args))
  }

  /** A two-character placeholder `%x` right after plain text is found there. */
  lemma FindMark(a: string, mark: string, rest: string)
    requires |mark| == 2 && mark[0] == '%' && '%' !in a
    ensures IndexOf(a + mark + rest, mark) == Some(|a|)
  {
    assert a + mark + rest == a + (mark + rest);
    IndexOfPlain(a, mark + rest, "%");
    IndexOfPlain(a, mark + rest, mark);
    assert OccursAt(mark + rest, mark, 0);
    IndexOfUnique(mark + rest, mark, 0);
  }

  /** Searching for one placeholder passes over plain text and another placeholder. */
  lemma SkipMark(a: string, other: string, rest: string, mark: string)
    requires |mark| == 2 && mark[0] == '%' && '%' !in a
    requires |other| == 2 && other[0] == '%' && other[1] != '%' && other != mark
    ensures IndexOf(a + other + rest, mark) == Shift(IndexOf(rest, mark), |a| + 2)
  {
    assert a + other + rest == a + (other + rest);
    IndexOfPlain(a, other + rest, mark);
    var s := other + rest;
    forall j: nat | j < |other|
      ensures !OccursAt(other + rest, mark, j)
    {
      if j == 0 {
        assert s[..2] == other;
      } else {
        assert s[1] == other[1] != mark[0];
      }
    }
    IndexOfAfter(other, rest, mark);
  }

  lemma NoMark(a: string, mark: string)
    requires |mark| == 2 && mark[0] == '%' && '%' !in a
    ensures IndexOf(a, mark) == None
  {
    assert a + "" == a;
    IndexOfPlain(a, "", mark);
  }

  lemma PrintfOneHole(a: string, b: string, args: seq<string>)
    requires '%' !in a && '%' !in b && |args| > 0
    ensures Printf(a + SectionMark + b, args) == a + args[0] + b
  {
    var t := SectionMark + b;
    assert a + SectionMark + b == a + t;
    PrintfPlain(a, t, args);
    PrintfHole(b, args);
    PlainPrintf(b, args[1..]);
    assert a + (args[0] + b) == a + args[0] + b;
  }

  /** Text without `%` prints as itself. */
  lemma PlainPrintf(x: string, args: seq<string>)
    requires '%' !in x
    ensures Printf(x, args) == x
  {
    PrintfPlain(x, "", args);
    assert x + "" == x;
  }

  lemma PrintfTwoHoles(a: string, b: string, c: string, x: string, y: string)
    requires '%' !in a && '%' !in b && '%' !in c
    ensures Printf(a + SectionMark + b + SectionMark + c, [x, y]) == a + x + b + y + c
  {
    var t := b + SectionMark + c;
    var u := SectionMark + t;
    assert a + SectionMark + b + SectionMark + c == a + u;
    assert Printf(a + u, [x, y]) == a + Printf(u, [x, y]) by {
      PrintfPlain(a, u, [x, y]);
    }
    assert Printf(u, [x, y]) == x + (b + y + c) by {
      PrintfHole(t, [x, y]);
      assert [x, y][1..] == [y];
      PrintfOneHole(b, c, [y]);
    }
    assert a + (x + (b + y + c)) == a + x + b + y + c;
  }

  /** Rewriting the letters after the two `%` of a two-placeholder format. */
  lemma RewriteTwo(a: string, m1: string, b: string, m2: string, c: string)
    requires |m1| == 2 && |m2| == 2 && m1[0] == '%' && m2[0] == '%'
    ensures (a + m1 + b + m2 + c)[|a| + 1 := 's'][|a| + 2 + |b| + 1 := 's']
         == a + SectionMark + b + SectionMark + c
  {
    var f := a + m1 + b + m2 + c;
    var g := f[|a| + 1 := 's'][|a| + 2 + |b| + 1 := 's'];
    var h := a + SectionMark + b + SectionMark + c;
    assert |g| == |h|;
    forall i | 0 <= i < |g|
      ensures g[i] == h[i]
    {
      if i < |a| {
      } else if i < |a| + 2 {
      } else if i < |a| + 2 + |b| {
      } else if i < |a| + 4 + |b| {
      } else {
      }
    }
  }

  lemma RewriteOne(a: string, m: string, b: string)
    requires |m| == 2 && m[0] == '%'
    ensures (a + m + b)[|a| + 1 := 's'] == a + SectionMark + b
  {
    var g := (a + m + b)[|a| + 1 := 's'];
    var h := a + SectionMark + b;
    forall i | 0 <= i < |g|
      ensures g[i] == h[i]
    {
      if i < |a| {
      } else if i < |a| + 2 {
      } else {
      }
    }
  }

  /** A format holding both placeholders: each rewritten to `%s`, and the
      arguments in the order the placeholders appear. */
  lemma RenderBothMarks(f: string, p: Pair, keysOnly: bool, k: nat, v: nat)
    requires IndexOf(f, KeyMark) == Some(k) && IndexOf(f, ValueMark) == Some(v)
    ensures RenderPair(Some(f), p, keysOnly)
         == Success(Printf(f[k + 1 := 's'][v + 1 := 's'],
                           if k > v then [Quote(p.value), Quote(p.key)] else [Quote(p.key), Quote(p.value)]))
  {
  }

  /** `%k` before `%v`: key and value land in place, in keys mode too. */
  lemma {:induction false} RenderKeyThenValue(a: string, b: string, c: string, p: Pair, keysOnly: bool)
    requires '%' !in a && '%' !in b && '%' !in c
    ensures RenderPair(Some(a + KeyMark + b + ValueMark + c), p, keysOnly)
         == Success(a + Quote(p.key) + b + Quote(p.value) + c)
  {
    var f := a + KeyMark + b + ValueMark + c;
    var k, v := |a|, |a| + 2 + |b|;
    assert IndexOf(f, KeyMark) == Some(k) by {
      assert f == a + KeyMark + (b + ValueMark + c);
      FindMark(a, KeyMark, b + ValueMark + c);
    }
    assert IndexOf(f, ValueMark) == Some(v) by {
      assert f == a + KeyMark + (b + ValueMark + c);
      SkipMark(a, KeyMark, b + ValueMark + c, ValueMark);
      FindMark(b, ValueMark, c);
    }
    var g := a + SectionMark + b + SectionMark + c;
    assert f[k + 1 := 's'][v + 1 := 's'] == g by {
      RewriteTwo(a, KeyMark, b, ValueMark, c);
    }
    assert Printf(g, [Quote(p.key), Quote(p.value)]) == a + Quote(p.key) + b + Quote(p.value) + c by {
      PrintfTwoHoles(a, b, c, Quote(p.key), Quote(p.value));
    }
    RenderBothMarks(f, p, keysOnly, k, v);
  }

  /** `%v` before `%k`: the arguments are swapped so each still lands in place. */
  lemma {:induction false} RenderValueThenKey(a: string, b: string, c: string, p: Pair, keysOnly: bool)
    requires '%' !in a && '%' !in b && '%' !in c
    ensures RenderPair(Some(a + ValueMark + b + KeyMark + c), p, keysOnly)
         == Success(a + Quote(p.value) + b + Quote(p.key) + c)
  {
    var f := a + ValueMark + b + KeyMark + c;
    var k, v := |a| + 2 + |b|, |a|;
    assert IndexOf(f, ValueMark) == Some(v) by {
      assert f == a + ValueMark + (b + KeyMark + c);
      FindMark(a, ValueMark, b + KeyMark + c);
    }
    assert IndexOf(f, KeyMark) == Some(k) by {
      assert f == a + ValueMark + (b + KeyMark + c);
      SkipMark(a, ValueMark, b + KeyMark + c, KeyMark);
      FindMark(b, KeyMark, c);
    }
    var g := a + SectionMark + b + SectionMark + c;
    assert f[k + 1 := 's'][v + 1 := 's'] == g by {
      RewriteTwo(a, ValueMark, b, KeyMark, c);
      assert f[k + 1 := 's'][v + 1 := 's'] == f[v + 1 := 's'][k + 1 := 's'];
    }
    assert Printf(g, [Quote(p.value), Quote(p.key)]) == a + Quote(p.value) + b + Quote(p.key) + c by {
      PrintfTwoHoles(a, b, c, Quote(p.value), Quote(p.key));
    }
    RenderBothMarks(f, p, keysOnly, k, v);
  }

  /** Only `%k`: the key lands in place, whatever the mode. */
  lemma {:induction false} RenderKeyOnly(a: string, b: string, p: Pair, keysOnly: bool)
    requires '%' !in a && '%' !in b
    ensures RenderPair(Some(a + KeyMark + b), p, keysOnly) == Success(a + Quote(p.key) + b)
  {
    var f := a + KeyMark + b;
    FindMark(a, KeyMark, b);
    SkipMark(a, KeyMark, b, ValueMark);
    NoMark(b, ValueMark);
    RewriteOne(a, KeyMark, b);
    PrintfOneHole(a, b, [Quote(p.key)]);
    PrintfOneHole(a, b, [Quote(p.key), Quote(p.value)]);
  }

  /** Only `%v`: the value lands in place; in keys mode the format is refused. */
  lemma {:induction false} RenderValueOnly(a: string, b: string, p: Pair, keysOnly: bool)
    requires '%' !in a && '%' !in b
    ensures RenderPair(Some(a + ValueMark + b), p, keysOnly)
         == if keysOnly then Failure(BadPairFormat) else Success(a + Quote(p.value) + b)
  {
    var f := a + ValueMark + b;
    FindMark(a, ValueMark, b);
    SkipMark(a, ValueMark, b, KeyMark);
    NoMark(b, KeyMark);
    RewriteOne(a, ValueMark, b);
    PrintfOneHole(a, b, [Quote(p.value), Quote(p.key)]);
  }

  /** Text with no placeholder at all is refused as a pair format. */
  lemma {:induction false} RenderNoPlaceholder(a: string, p: Pair, keysOnly: bool)
    requires '%' !in a
    ensures RenderPair(Some(a), p, keysOnly) == Failure(BadPairFormat)
  {
    NoMark(a, KeyMark);
    NoMark(a, ValueMark);
  }

  /** One section name through a section format: the first `%s` takes it. */
  function RenderSectionName(fmt: Option<string>, name: string): string {
    match fmt
    case None => name
    case Some(f) => Printf(f, [name])
  }

  /** A section format `a%sb` prints the name in place. */
  lemma {:induction false} SectionNameInPlace(a: string, b: string, name: string)
    requires '%' !in a && '%' !in b
    ensures RenderSectionName(Some(a + SectionMark + b), name) == a + name + b
  {
    PrintfOneHole(a, b, [name]);
  }
}
