/** The C string routines the engine leans on (`strstr`, `strsep`, `%d`),
    stated over `string`. */
module Text {
  import opened Outcomes

  /** `pat` occurs in `s` starting at position `i`. */
  predicate OccursAt(s: string, pat: string, i: nat) {
    i + |pat| <= |s| && s[i..i + |pat|] == pat
  }

  /** Moves a found position `n` places to the right. */
  function Shift(o: Option<nat>, n: nat): Option<nat> {
    match o
    case None => None
    case Some(i) => Some(i + n)
  }

  function IndexFrom(s: string, pat: string, i: nat): (r: Option<nat>)
    requires i <= |s|
    ensures r.Some? ==> i <= r.value && OccursAt(s, pat, r.value)
    ensures forall j: nat :: i <= j && (r.None? || j < r.value) ==> !OccursAt(s, pat, j)
    decreases |s| - i
  {
    if OccursAt(s, pat, i) then Some(i)
    else if i == |s| then None
    else IndexFrom(s, pat, i + 1)
  }

  /** Position of the first occurrence of `pat` in `s`, as `strstr` finds it. */
  function IndexOf(s: string, pat: string): (r: Option<nat>)
    ensures r.Some? ==> OccursAt(s, pat, r.value)
    ensures forall j: nat :: (r.None? || j < r.value) ==> !OccursAt(s, pat, j)
  {
    IndexFrom(s, pat, 0)
  }

  predicate Contains(s: string, pat: string) {
    IndexOf(s, pat).Some?
  }

  /** The first occurrence is the only position that occurs with nothing before it. */
  lemma IndexOfUnique(s: string, pat: string, k: nat)
    requires OccursAt(s, pat, k)
    requires forall j: nat :: j < k ==> !OccursAt(s, pat, j)
    ensures IndexOf(s, pat) == Some(k)
  {
  }

  /** A prefix that holds no occurrence only shifts the first occurrence. */
  lemma IndexOfAfter(x: string, y: string, pat: string)
    requires forall j: nat :: j < |x| ==> !OccursAt(x + y, pat, j)
    ensures IndexOf(x + y, pat) == Shift(IndexOf(y, pat), |x|)
  {
    var s := x + y;
    forall j: nat | |x| <= j
      ensures OccursAt(s, pat, j) <==> OccursAt(y, pat, j - |x|)
    {
      if j + |pat| <= |s| {
        assert s[j..j + |pat|] == y[j - |x|..j - |x| + |pat|];
      }
    }
    match IndexOf(y, pat)
    case Some(k) =>
      IndexOfUnique(s, pat, |x| + k);
    case None =>
      forall j: nat
        ensures !OccursAt(s, pat, j)
      {
        if |x| <= j {
          assert !OccursAt(y, pat, j - |x|);
        }
      }
  }

  /** A prefix without the pattern's first character only shifts the first occurrence. */
  lemma IndexOfPlain(x: string, y: string, pat: string)
    requires |pat| > 0 && pat[0] !in x
    ensures IndexOf(x + y, pat) == Shift(IndexOf(y, pat), |x|)
  {
    forall j: nat | j < |x|
      ensures !OccursAt(x + y, pat, j)
    {
      assert (x + y)[j] == x[j] != pat[0];
    }
    IndexOfAfter(x, y, pat);
  }

  /** `parts` joined by `sep`, with no leading or trailing separator. */
  function Join(parts: seq<string>, sep: string): string
    decreases |parts|
  {
    if |parts| == 0 then ""
    else if |parts| == 1 then parts[0]
    else Join(parts[..|parts| - 1], sep) + sep + parts[|parts| - 1]
  }

  lemma {:induction false} JoinCons(a: string, rest: seq<string>, sep: string)
    requires |rest| > 0
    ensures Join([a] + rest, sep) == a + sep + Join(rest, sep)
    decreases |rest|
  {
    if |rest| > 1 {
      var init := rest[..|rest| - 1];
      assert ([a] + rest)[..|rest|] == [a] + init;
      JoinCons(a, init, sep);
    }
  }

  /** The segments `strsep` returns one after another for a one-character
      delimiter: `s` cut at every `c`, empty segments included. */
  function Split(s: string, c: char): (r: seq<string>)
    ensures |r| >= 1
    ensures forall i :: 0 <= i < |r| ==> c !in r[i]
    decreases |s|
  {
    if |s| == 0 then [""]
    else
      var rest := Split(s[1..], c);
      if s[0] == c then [""] + rest
      else [[s[0]] + rest[0]] + rest[1..]
  }

  /** Joining the segments with the delimiter gives the string back. */
  lemma {:induction false} SplitJoin(s: string, c: char)
    ensures Join(Split(s, c), [c]) == s
    decreases |s|
  {
    if |s| > 0 {
      var rest := Split(s[1..], c);
      SplitJoin(s[1..], c);
      if s[0] == c {
        JoinCons("", rest, [c]);
      } else {
        var head := [s[0]] + rest[0];
        if |rest| == 1 {
          assert Split(s, c) == [head];
        } else {
          JoinCons(head, rest[1..], [c]);
          JoinCons(rest[0], rest[1..], [c]);
          assert rest == [rest[0]] + rest[1..];
        }
      }
    }
  }

  lemma {:induction false} SplitPlain(a: string, c: char)
    requires c !in a
    ensures Split(a, c) == [a]
    decreases |a|
  {
    if |a| > 0 {
      SplitPlain(a[1..], c);
      assert [a[0]] + a[1..] == a;
    }
  }

  lemma {:induction false} SplitAppend(a: string, b: string, c: char)
    requires c !in a
    ensures Split(a + [c] + b, c) == [a] + Split(b, c)
    decreases |a|
  {
    var s := a + [c] + b;
    if |a| == 0 {
      assert s[1..] == b;
    } else {
      assert s[1..] == a[1..] + [c] + b;
      SplitAppend(a[1..], b, c);
      assert [a[0]] + a[1..] == a;
    }
  }

  /** One step of `Split`, in the shape the proofs below use. */
  lemma SplitUnfold(s: string, c: char)
    requires |s| > 0
    ensures s[0] == c ==> Split(s, c) == [""] + Split(s[1..], c)
    ensures s[0] != c ==> Split(s, c) == [[s[0]] + Split(s[1..], c)[0]] + Split(s[1..], c)[1..]
  {
    var rest := Split(s[1..], c);
    if s[0] != c && |rest| == 1 {
      assert rest[1..] == [];
    }
  }

  lemma {:induction false} SplitConcat(x: string, y: string, c: char)
    ensures Split(x + [c] + y, c) == Split(x, c) + Split(y, c)
    decreases |x|
  {
    var s := x + [c] + y;
    SplitUnfold(s, c);
    if |x| == 0 {
      assert s[0] == c && s[1..] == y;
    } else {
      assert s[0] == x[0] && s[1..] == x[1..] + [c] + y;
      SplitConcat(x[1..], y, c);
      SplitUnfold(x, c);
      var r1, r2 := Split(x[1..], c), Split(y, c);
      if x[0] == c {
        assert [""] + (r1 + r2) == ([""] + r1) + r2;
      } else {
        assert (r1 + r2)[0] == r1[0];
        assert (r1 + r2)[1..] == r1[1..] + r2;
        assert [[x[0]] + r1[0]] + (r1[1..] + r2) == ([[x[0]] + r1[0]] + r1[1..]) + r2;
      }
    }
  }

  /** Splitting undoes joining when no segment holds the separator. */
  lemma {:induction false} JoinSplit(parts: seq<string>, c: char)
    requires |parts| >= 1
    requires forall i :: 0 <= i < |parts| ==> c !in parts[i]
    ensures Split(Join(parts, [c]), c) == parts
    decreases |parts|
  {
    if |parts| == 1 {
      SplitPlain(parts[0], c);
    } else {
      JoinCons(parts[0], parts[1..], [c]);
      assert [parts[0]] + parts[1..] == parts;
      JoinSplit(parts[1..], c);
      SplitAppend(parts[0], Join(parts[1..], [c]), c);
    }
  }

  /** `parts` printed one after another. */
  function Concat(parts: seq<string>): string
    decreases |parts|
  {
    if |parts| == 0 then "" else Concat(parts[..|parts| - 1]) + parts[|parts| - 1]
  }

  /** Each line followed by a newline, as successive `printf("...\n")` calls print them. */
  function Lines(xs: seq<string>): string
    decreases |xs|
  {
    if |xs| == 0 then "" else Lines(xs[..|xs| - 1]) + xs[|xs| - 1] + "\n"
  }

  function Digit(d: nat): (c: char)
    requires d < 10
    ensures '0' <= c <= '9'
  {
    (48 + d) as char
  }

  /** Decimal rendering of a count, as `printf("%d")` prints it. */
  function Decimal(n: nat): (r: string)
    ensures |r| > 0
    ensures forall i :: 0 <= i < |r| ==> '0' <= r[i] <= '9'
    ensures |r| > 1 ==> r[0] != '0'
    decreases n
  {
    if n < 10 then [Digit(n)] else Decimal(n / 10) + [Digit(n % 10)]
  }

  /** The number a string of decimal digits denotes. */
  function DigitsValue(s: string): int
    decreases |s|
  {
    if |s| == 0 then 0
    else 10 * DigitsValue(s[..|s| - 1]) + ((s[|s| - 1] as int) - 48)
  }

  /** Reading back a rendered count gives the count. */
  lemma {:induction false} DecimalRoundTrip(n: nat)
    ensures DigitsValue(Decimal(n)) == n
    decreases n
  {
    if n >= 10 {
      DecimalRoundTrip(n / 10);
      var s := Decimal(n);
      assert s[..|s| - 1] == Decimal(n / 10);
    }
  }
}
