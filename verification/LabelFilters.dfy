/**
 addLabelFilters prints label filters as a Kubernetes label selector. Reading the
 selector back, by its comma-separated requirements, gives the filters again.
 */
module LabelFilters {
  import opened Slices

  datatype Operation = Equal | Different | Has | DoesNotHave

  datatype LabelFilter = LabelFilter(key: string, operation: Operation, value: string)

  function Requirement(f: LabelFilter): string {
    match f.operation
    case Equal => f.key + "=" + f.value
    case Different => f.key + "!=" + f.value
    case Has => f.key
    case DoesNotHave => "!" + f.key
  }

  function Selector(fs: seq<LabelFilter>): string {
    if fs == [] then ""
    else
      var front := Selector(fs[..|fs| - 1]);
      front + (if front != "" then "," else "") + Requirement(fs[|fs| - 1])
  }

  method AddLabelFilters(fs: seq<LabelFilter>) returns (labelFilter: string)
    ensures labelFilter == Selector(fs)
  {
    labelFilter := "";
    for i := 0 to |fs|
      invariant labelFilter == Selector(fs[..i])
    {
      assert fs[..i + 1][..i] == fs[..i];
      if labelFilter != "" {
        labelFilter := labelFilter + ",";
      }
      var f := fs[i];
      match f.operation {
        case Equal => labelFilter := labelFilter + (f.key + "=" + f.value);
        case Different => labelFilter := labelFilter + (f.key + "!=" + f.value);
        case Has => labelFilter := labelFilter + f.key;
        case DoesNotHave => labelFilter := labelFilter + ("!" + f.key);
      }
    }
    assert fs[..|fs|] == fs;
  }

  // ----- Reading a selector -----

  /** The pieces of s between commas. */
  function Split(s: string): (r: seq<string>)
    ensures r != []
  {
    if s == "" then [""]
    else
      var r := Split(s[..|s| - 1]);
      var c := s[|s| - 1];
      if c == ',' then r + [""]
      else r[|r| - 1 := r[|r| - 1] + [c]]
  }

  /** One requirement: !key, key, key!=value or key=value. */
  function ReadRequirement(x: string): LabelFilter {
    var i := IndexOf(x, '=');
    if x != "" && x[0] == '!' then LabelFilter(x[1..], DoesNotHave, "")
    else if i == |x| then LabelFilter(x, Has, "")
    else if i > 0 && x[i - 1] == '!' then LabelFilter(x[..i - 1], Different, x[i + 1..])
    else LabelFilter(x[..i], Equal, x[i + 1..])
  }

  function ReadAll(xs: seq<string>): (fs: seq<LabelFilter>)
    ensures |fs| == |xs|
  {
    seq(|xs|, i requires 0 <= i < |xs| => ReadRequirement(xs[i]))
  }

  function Read(s: string): seq<LabelFilter> {
    if s == "" then [] else ReadAll(Split(s))
  }

  /** Label keys are not empty, and neither keys nor values contain the selector's own characters. */
  predicate Plain(f: LabelFilter) {
    && f.key != "" && ',' !in f.key && '=' !in f.key && '!' !in f.key && ',' !in f.value
  }

  /** The value of Has and DoesNotHave is not printed. */
  function WithoutUnusedValue(f: LabelFilter): LabelFilter {
    if f.operation.Has? || f.operation.DoesNotHave? then f.(value := "") else f
  }

  function AllWithoutUnusedValues(fs: seq<LabelFilter>): seq<LabelFilter> {
    if fs == [] then []
    else AllWithoutUnusedValues(fs[..|fs| - 1]) + [WithoutUnusedValue(fs[|fs| - 1])]
  }

  lemma {:induction false} SplitPlain(x: string)
    requires ',' !in x
    ensures Split(x) == [x]
  {
    if x != "" {
      var front := x[..|x| - 1];
      assert x == front + [x[|x| - 1]];
      SplitPlain(front);
    }
  }

  lemma {:induction false} SplitAppend(s: string, x: string)
    requires ',' !in x
    ensures Split(s + "," + x) == Split(s) + [x]
  {
    if x == "" {
      assert (s + "," + x)[..|s|] == s;
    } else {
      var front := x[..|x| - 1];
      assert x == front + [x[|x| - 1]];
      assert (s + "," + x)[..|s + "," + x| - 1] == s + "," + front;
      SplitAppend(s, front);
    }
  }

  lemma {:induction false} FirstEquals(k: string, rest: string)
    requires '=' !in k
    ensures IndexOf(k + "=" + rest, '=') == |k|
  {
    var x := k + "=" + rest;
    assert x[|k|] == '=';
    assert forall j :: 0 <= j < |k| ==> x[j] == k[j];
    IndexOfUnique(x, '=', |k|);
  }

  lemma {:induction false} ReadEqual(key: string, value: string)
    requires key != "" && key[0] != '!' && key[|key| - 1] != '!' && '=' !in key
    ensures ReadRequirement(key + "=" + value) == LabelFilter(key, Equal, value)
  {
    var x := key + "=" + value;
    FirstEquals(key, value);
    assert x[0] == key[0] && x[|key| - 1] == key[|key| - 1];
    assert x[..|key|] == key && x[|key| + 1..] == value;
  }

  lemma {:induction false} ReadDifferent(key: string, value: string)
    requires key != "" && key[0] != '!' && '=' !in key
    ensures ReadRequirement(key + "!=" + value) == LabelFilter(key, Different, value)
  {
    var x := key + "!=" + value;
    FirstEquals(key + "!", value);
    assert x == (key + "!") + "=" + value;
    assert x[0] == key[0];
    assert x[..|key|] == key && x[|key| + 2..] == value;
  }

  lemma {:induction false} RequirementRoundTrip(f: LabelFilter)
    requires Plain(f)
    ensures Requirement(f) != "" && ',' !in Requirement(f)
    ensures ReadRequirement(Requirement(f)) == WithoutUnusedValue(f)
  {
    assert f.key[0] in f.key && f.key[|f.key| - 1] in f.key;
    match f.operation
    case Equal =>
      ReadEqual(f.key, f.value);
    case Different =>
      ReadDifferent(f.key, f.value);
    case Has =>
      assert IndexOf(f.key, '=') == |f.key|;
    case DoesNotHave =>
      assert ("!" + f.key)[1..] == f.key;
  }

  /** Reading a printed selector gives the filters back, in order; so no two lists print alike. */
  lemma {:induction false} SelectorRoundTrip(fs: seq<LabelFilter>)
    requires forall f :: f in fs ==> Plain(f)
    ensures Selector(fs) == "" <==> fs == []
    ensures Read(Selector(fs)) == AllWithoutUnusedValues(fs)
  {
    if fs != [] {
      var front, f := fs[..|fs| - 1], fs[|fs| - 1];
      SelectorRoundTrip(front);
      RequirementRoundTrip(f);
      hide Requirement, ReadRequirement, Split, ReadAll, Plain;
      if front == [] {
        assert Selector(fs) == Requirement(f);
        SplitPlain(Requirement(f));
        ReadAllSnoc([], Requirement(f));
        assert [] + [Requirement(f)] == [Requirement(f)];
      } else {
        SplitAppend(Selector(front), Requirement(f));
        ReadAllSnoc(Split(Selector(front)), Requirement(f));
      }
    }
  }

  lemma {:induction false} ReadAllSnoc(xs: seq<string>, x: string)
    ensures ReadAll(xs + [x]) == ReadAll(xs) + [ReadRequirement(x)]
    ensures ReadAll([]) == []
  {
  }
}
