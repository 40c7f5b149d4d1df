/** The splitting rule behind the cached string lists: a raw string is cut at every
    space and every `|`, and the empty segments are dropped (Kotlin's
    `split(" ", "|").filter { it.isNotEmpty() }`). */
module Split {

  /** The two separators of a string-list preference. */
  predicate IsSeparator(c: char) {
    c == ' ' || c == '|'
  }

  predicate NoSeparator(s: string) {
    forall i :: 0 <= i < |s| ==> !IsSeparator(s[i])
  }

  /** Index of the first separator of `s`, or `|s|` when there is none. */
  function FirstSeparator(s: string): (i: nat)
    ensures i <= |s|
  {
    if |s| == 0 then 0
    else if IsSeparator(s[0]) then 0
    else 1 + FirstSeparator(s[1..])
  }

  /** `FirstSeparator` finds the first separator: none comes before it, and the
      character at the index is one unless the end was reached. */
  lemma {:induction false} FirstSeparatorSpec(s: string)
    ensures forall j :: 0 <= j < FirstSeparator(s) ==> !IsSeparator(s[j])
    ensures FirstSeparator(s) < |s| ==> IsSeparator(s[FirstSeparator(s)])
    decreases |s|
  {
    if |s| > 0 && !IsSeparator(s[0]) {
      var i := FirstSeparator(s[1..]);
      FirstSeparatorSpec(s[1..]);
      assert s[..1 + i] == [s[0]] + s[1..][..i];
      forall j | 0 <= j < 1 + i ensures !IsSeparator(s[j]) {
        if j > 0 {
          assert s[j] == s[1..][j - 1];
        }
      }
    }
  }

  /** Kotlin's `split(" ", "|")`: the segments between separators, empty ones included.
      There is always at least one segment (`"".split(...)` is `[""]`). */
  function Fields(s: string): (r: seq<string>)
    ensures |r| > 0
    decreases |s|
  {
    var i := FirstSeparator(s);
    if i == |s| then [s] else [s[..i]] + Fields(s[i + 1..])
  }

  /** The separator characters of `s`, in order. */
  function Separators(s: string): string {
    if |s| == 0 then []
    else (if IsSeparator(s[0]) then [s[0]] else []) + Separators(s[1..])
  }

  lemma {:induction false} SeparatorsAreSeparators(s: string)
    ensures forall j :: 0 <= j < |Separators(s)| ==> IsSeparator(Separators(s)[j])
    decreases |s|
  {
    if |s| > 0 {
      SeparatorsAreSeparators(s[1..]);
      var head := if IsSeparator(s[0]) then [s[0]] else [];
      forall j | 0 <= j < |Separators(s)| ensures IsSeparator(Separators(s)[j]) {
        if j >= |head| {
          assert Separators(s)[j] == Separators(s[1..])[j - |head|];
        }
      }
    }
  }

  /** Glues segments back together, putting `seps[j]` between `fields[j]` and `fields[j + 1]`. */
  function Interleave(fields: seq<string>, seps: string): string
    requires |fields| == |seps| + 1
    decreases |seps|
  {
    if |seps| == 0 then fields[0]
    else fields[0] + [seps[0]] + Interleave(fields[1..], seps[1..])
  }

  /** `filter { it.isNotEmpty() }`. */
  function NonEmpty(fields: seq<string>): seq<string> {
    if |fields| == 0 then []
    else (if fields[0] == [] then [] else [fields[0]]) + NonEmpty(fields[1..])
  }

  /** The filter keeps exactly the non-empty segments: each kept item is a non-empty
      segment of the input, and each non-empty segment of the input is kept. */
  lemma {:induction false} NonEmptySpec(fields: seq<string>)
    ensures forall j :: 0 <= j < |NonEmpty(fields)| ==> NonEmpty(fields)[j] != [] && NonEmpty(fields)[j] in fields
    ensures forall f :: f in fields && f != [] ==> f in NonEmpty(fields)
    decreases |fields|
  {
    if |fields| > 0 {
      NonEmptySpec(fields[1..]);
      var head := if fields[0] == [] then [] else [fields[0]];
      var r := NonEmpty(fields);
      assert r == head + NonEmpty(fields[1..]);
      forall j | 0 <= j < |r| ensures r[j] != [] && r[j] in fields {
        if j >= |head| {
          assert r[j] == NonEmpty(fields[1..])[j - |head|];
          assert r[j] in fields[1..];
        }
      }
      forall f | f in fields && f != [] ensures f in r {
        if f != fields[0] {
          assert f in fields[1..] by {
            var k :| 0 <= k < |fields| && fields[k] == f;
            assert fields[1..][k - 1] == f;
          }
        }
      }
    }
  }

  /** The filter works segment by segment: it keeps one non-empty segment as it is,
      drops an empty one, and the results for two halves line up, so every non-empty
      segment is kept in its order and with its repeats. */
  lemma {:induction false} NonEmptyAppend(a: seq<string>, b: seq<string>)
    ensures NonEmpty(a + b) == NonEmpty(a) + NonEmpty(b)
    ensures |a| == 1 ==> NonEmpty(a) == if a[0] == [] then [] else a
    decreases |a|
  {
    if |a| == 1 {
      assert a == [a[0]] && a[1..] == [];
    }
    if |a| > 0 {
      assert NonEmpty(a[1..] + b) == NonEmpty(a[1..]) + NonEmpty(b) by {
        NonEmptyAppend(a[1..], b);
      }
      assert (a + b)[1..] == a[1..] + b;
    } else {
      assert a + b == b;
    }
  }

  /** The list cached for a raw string value. */
  function Tokens(s: string): seq<string> {
    NonEmpty(Fields(s))
  }

  /** The characters of `s` that are not separators, in order. */
  function Strip(s: string): string {
    if |s| == 0 then []
    else (if IsSeparator(s[0]) then [] else [s[0]]) + Strip(s[1..])
  }

  /** All the segments laid end to end. */
  function Concat(ss: seq<string>): string {
    if |ss| == 0 then [] else ss[0] + Concat(ss[1..])
  }

  /** A prefix without separators contributes nothing to `Separators`. */
  lemma {:induction false} SeparatorsSkip(s: string, i: nat)
    requires i <= |s| && NoSeparator(s[..i])
    ensures Separators(s) == Separators(s[i..])
    decreases i
  {
    if i > 0 {
      assert !IsSeparator(s[..i][0]);
      assert s[1..][..i - 1] == s[1..i];
      assert NoSeparator(s[1..i]) by {
        forall j | 0 <= j < i - 1 ensures !IsSeparator(s[1..i][j]) {
          assert s[1..i][j] == s[..i][j + 1];
        }
      }
      SeparatorsSkip(s[1..], i - 1);
      assert s[1..][i - 1..] == s[i..];
    }
  }

  /** Splitting loses nothing: the segments and the separators between them rebuild the
      input, and no segment contains a separator. */
  lemma FieldsRoundTrip(s: string)
    ensures |Fields(s)| == |Separators(s)| + 1
    ensures Interleave(Fields(s), Separators(s)) == s
    ensures forall j :: 0 <= j < |Fields(s)| ==> NoSeparator(Fields(s)[j])
  {
    FieldsRebuild(s);
    FieldsSeparatorFree(s);
  }

  lemma {:induction false} FieldsRebuild(s: string)
    ensures |Fields(s)| == |Separators(s)| + 1
    ensures Interleave(Fields(s), Separators(s)) == s
    decreases |s|
  {
    var i := FirstSeparator(s);
    if i == |s| {
      assert Separators(s) == [] by {
        FirstSeparatorSpec(s);
        SeparatorsSkip(s, i);
      }
      assert Fields(s) == [s] by {
        assert s[..i] == s;
      }
    } else {
      var t := s[i + 1..];
      FieldsStep(s, i);
      FieldsRebuild(t);
      InterleaveCons(s[..i], Fields(t), s[i], Separators(t));
    }
  }

  lemma {:induction false} FieldsSeparatorFree(s: string)
    ensures forall j :: 0 <= j < |Fields(s)| ==> NoSeparator(Fields(s)[j])
    decreases |s|
  {
    var i := FirstSeparator(s);
    var fs := Fields(s);
    FirstSeparatorSpec(s);
    if i == |s| {
      assert fs == [s] by {
        assert s[..i] == s;
      }
    } else {
      var t := s[i + 1..];
      assert fs == [s[..i]] + Fields(t);
      FieldsSeparatorFree(t);
      forall j | 0 <= j < |fs| ensures NoSeparator(fs[j]) {
        if j == 0 {
          assert fs[0] == s[..i];
        } else {
          assert fs[j] == Fields(t)[j - 1];
        }
      }
    }
  }

  /** One step of the split: the first segment, the first separator, and the rest. */
  lemma FieldsStep(s: string, i: nat)
    requires i == FirstSeparator(s) && i < |s|
    ensures Fields(s) == [s[..i]] + Fields(s[i + 1..])
    ensures Separators(s) == [s[i]] + Separators(s[i + 1..])
  {
    FirstSeparatorSpec(s);
    assert NoSeparator(s[..i]) by {
      forall j | 0 <= j < i ensures !IsSeparator(s[..i][j]) {
        assert s[..i][j] == s[j];
      }
    }
    SeparatorsSkip(s, i);
    assert s[i..][1..] == s[i + 1..];
  }

  lemma InterleaveCons(f: string, fs: seq<string>, c: char, cs: string)
    requires |fs| == |cs| + 1
    ensures Interleave([f] + fs, [c] + cs) == f + [c] + Interleave(fs, cs)
  {
    assert ([f] + fs)[1..] == fs;
    assert ([c] + cs)[1..] == cs;
  }

  /** A separator-free string is a single segment. */
  lemma FieldsOfSegment(f: string)
    requires NoSeparator(f)
    ensures Fields(f) == [f]
  {
    FirstSeparatorSpec(f);
    assert FirstSeparator(f) == |f|;
    assert f[..|f|] == f;
  }

  /** A separator-free segment followed by a separator splits off as the first field. */
  lemma FieldsAfterSegment(f: string, c: char, t: string)
    requires NoSeparator(f) && IsSeparator(c)
    ensures Fields(f + [c] + t) == [f] + Fields(t)
  {
    var s := f + [c] + t;
    assert s[|f|] == c;
    FirstSeparatorSpec(s);
    assert FirstSeparator(s) == |f|;
    assert s[..|f|] == f;
    assert s[|f| + 1..] == t;
  }

  /** The separators of a segment-separator-rest string: the one separator, then the rest's. */
  lemma SeparatorsAfterSegment(f: string, c: char, t: string)
    requires NoSeparator(f) && IsSeparator(c)
    ensures Separators(f + [c] + t) == [c] + Separators(t)
  {
    var s := f + [c] + t;
    assert s[..|f|] == f;
    SeparatorsSkip(s, |f|);
    assert s[|f|..] == [c] + t;
    assert ([c] + t)[1..] == t;
  }

  lemma SeparatorsOfSegment(f: string)
    requires NoSeparator(f)
    ensures Separators(f) == []
  {
    assert f[..|f|] == f;
    SeparatorsSkip(f, |f|);
  }

  /** The converse of `FieldsRoundTrip`: any separator-free segments that rebuild `s`
      around separator characters are exactly what `Fields` returns. */
  lemma {:induction false} FieldsUnique(s: string, fields: seq<string>, seps: string)
    requires |fields| == |seps| + 1
    requires forall j :: 0 <= j < |fields| ==> NoSeparator(fields[j])
    requires forall j :: 0 <= j < |seps| ==> IsSeparator(seps[j])
    requires Interleave(fields, seps) == s
    ensures fields == Fields(s)
    ensures seps == Separators(s)
    decreases |seps|
  {
    if |seps| == 0 {
      assert s == fields[0];
      FieldsOfSegment(s);
      SeparatorsOfSegment(s);
    } else {
      var t := Interleave(fields[1..], seps[1..]);
      assert s == fields[0] + [seps[0]] + t;
      forall j | 0 <= j < |fields[1..]| ensures NoSeparator(fields[1..][j]) {
        assert fields[1..][j] == fields[j + 1];
      }
      forall j | 0 <= j < |seps[1..]| ensures IsSeparator(seps[1..][j]) {
        assert seps[1..][j] == seps[j + 1];
      }
      FieldsUnique(t, fields[1..], seps[1..]);
      FieldsAfterSegment(fields[0], seps[0], t);
      SeparatorsAfterSegment(fields[0], seps[0], t);
      assert fields == [fields[0]] + fields[1..];
      assert seps == [seps[0]] + seps[1..];
    }
  }

  /** Every cached token is non-empty and holds no separator. */
  lemma TokensShape(s: string)
    ensures forall j :: 0 <= j < |Tokens(s)| ==> Tokens(s)[j] != [] && NoSeparator(Tokens(s)[j])
  {
    FieldsRoundTrip(s);
    var fs := Fields(s);
    NonEmptySpec(fs);
    forall j | 0 <= j < |Tokens(s)| ensures NoSeparator(Tokens(s)[j]) {
      var t := Tokens(s)[j];
      assert t in fs;
      var k :| 0 <= k < |fs| && fs[k] == t;
    }
  }

  lemma {:induction false} StripAppend(a: string, b: string)
    ensures Strip(a + b) == Strip(a) + Strip(b)
    decreases |a|
  {
    if |a| > 0 {
      assert (a + b)[1..] == a[1..] + b;
      StripAppend(a[1..], b);
    } else {
      assert a + b == b;
    }
  }

  lemma {:induction false} StripNoSeparator(s: string)
    requires NoSeparator(s)
    ensures Strip(s) == s
    decreases |s|
  {
    if |s| > 0 {
      assert !IsSeparator(s[0]);
      assert NoSeparator(s[1..]) by {
        forall j | 0 <= j < |s| - 1 ensures !IsSeparator(s[1..][j]) {
          assert s[1..][j] == s[j + 1];
        }
      }
      StripNoSeparator(s[1..]);
      assert s == [s[0]] + s[1..];
    }
  }

  lemma {:induction false} StripInterleave(fields: seq<string>, seps: string)
    requires |fields| == |seps| + 1
    requires forall j :: 0 <= j < |fields| ==> NoSeparator(fields[j])
    requires forall j :: 0 <= j < |seps| ==> IsSeparator(seps[j])
    ensures Strip(Interleave(fields, seps)) == Concat(fields)
    decreases |seps|
  {
    StripNoSeparator(fields[0]);
    if |seps| == 0 {
      assert Concat(fields) == fields[0] + Concat(fields[1..]);
      assert fields[0] + [] == fields[0];
    } else {
      forall j | 0 <= j < |fields[1..]| ensures NoSeparator(fields[1..][j]) {
        assert fields[1..][j] == fields[j + 1];
      }
      forall j | 0 <= j < |seps[1..]| ensures IsSeparator(seps[1..][j]) {
        assert seps[1..][j] == seps[j + 1];
      }
      StripInterleave(fields[1..], seps[1..]);
      var rest := Interleave(fields[1..], seps[1..]);
      StripAppend(fields[0] + [seps[0]], rest);
      StripAppend(fields[0], [seps[0]]);
      assert Strip([seps[0]]) == [];
    }
  }

  lemma {:induction false} ConcatNonEmpty(fields: seq<string>)
    ensures Concat(NonEmpty(fields)) == Concat(fields)
    decreases |fields|
  {
    if |fields| > 0 {
      ConcatNonEmpty(fields[1..]);
      var head := if fields[0] == [] then [] else [fields[0]];
      ConcatAppend(head, NonEmpty(fields[1..]));
    }
  }

  lemma {:induction false} ConcatAppend(a: seq<string>, b: seq<string>)
    ensures Concat(a + b) == Concat(a) + Concat(b)
    decreases |a|
  {
    if |a| > 0 {
      assert (a + b)[1..] == a[1..] + b;
      ConcatAppend(a[1..], b);
    } else {
      assert a + b == b;
    }
  }

  /** The tokens keep every non-separator character of the input, in order. */
  lemma TokensKeepText(s: string)
    ensures Concat(Tokens(s)) == Strip(s)
  {
    FieldsRoundTrip(s);
    SeparatorsAreSeparators(s);
    StripInterleave(Fields(s), Separators(s));
    ConcatNonEmpty(Fields(s));
  }

  /** A value with no text at all caches the empty list. */
  lemma TokensOfEmpty()
    ensures Tokens("") == []
  {
  }

  /** A separator-free string caches as itself, or as nothing when it is empty. */
  lemma TokensOfSegment(f: string)
    requires NoSeparator(f)
    ensures Tokens(f) == if f == [] then [] else [f]
  {
    FieldsOfSegment(f);
    assert NonEmpty([f][1..]) == [];
  }

  /** A separator-free segment followed by a separator contributes itself, unless it is
      empty, and the rest is split independently. */
  lemma TokensAfterSegment(f: string, c: char, t: string)
    requires NoSeparator(f) && IsSeparator(c)
    ensures Tokens(f + [c] + t) == (if f == [] then [] else [f]) + Tokens(t)
  {
    FieldsAfterSegment(f, c, t);
    assert ([f] + Fields(t))[1..] == Fields(t);
  }

  /** Runs of separators produce empty segments, which the filter drops: for instance
      "alice bob|| carol" caches ["alice", "bob", "carol"]. */
  lemma TokensExample(a: string, b: string, c: string)
    requires a != [] && b != [] && c != []
    requires NoSeparator(a) && NoSeparator(b) && NoSeparator(c)
    ensures Tokens(a + " " + b + "|| " + c) == [a, b, c]
  {
    var t3 := [] + [' '] + c;
    var t2 := [] + ['|'] + t3;
    var t1 := b + ['|'] + t2;
    assert a + " " + b + "|| " + c == a + [' '] + t1;
    assert NoSeparator([]);
    TokensAfterSegment(a, ' ', t1);
    TokensAfterSegment(b, '|', t2);
    TokensAfterSegment([], '|', t3);
    TokensAfterSegment([], ' ', c);
    assert [] + [' '] + c == [' '] + c;
    TokensOfSegment(c);
  }
}
