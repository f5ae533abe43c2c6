/**
 * Label preparation before training a churn classifier: choosing the label
 * column, mapping its values to 0/1, and splitting the remaining columns into
 * numeric and categorical features.
 */
module Train {
  import opened Wrappers
  import opened Text
  import opened Ordering

  /** The values of one column, by pandas dtype family. */
  datatype Values =
    | Bools(bools: seq<bool>)     // dtype bool
    | Numbers(nums: seq<real>)    // an integer or floating dtype
    | Strings(strs: seq<string>)  // any other dtype, read through `astype(str)`

  datatype Column = Column(name: string, values: Values)

  function Rows(v: Values): nat
  {
    match v
    case Bools(bs) => |bs|
    case Numbers(xs) => |xs|
    case Strings(ss) => |ss|
  }

  function NameOf(c: Column): string
  {
    c.name
  }

  /** The column names, in column order. */
  function Names(frame: seq<Column>): seq<string>
  {
    Map(frame, NameOf)
  }

  // ---------------------------------------------------------------------
  // Choosing the label column
  // ---------------------------------------------------------------------

  /** Column names tried, in this order, when no usable name is given. */
  const Candidates: seq<string> := ["Churn", "churn", "target", "label"]

  const NoTargetMessage: string :=
    "Could not infer target column. Pass --target explicitly or ensure a 'Churn' column exists."

  /** Index of the first of `cands[from..]` that is among `names`. */
  function FirstPresent(cands: seq<string>, names: seq<string>, from: nat): (r: Option<nat>)
    requires from <= |cands|
    decreases |cands| - from
    ensures r.Some? ==> from <= r.value < |cands| && cands[r.value] in names
    ensures forall j :: from <= j < |cands| && (r.None? || j < r.value) ==> cands[j] !in names
  {
    if from == |cands| then None
    else if cands[from] in names then Some(from)
    else FirstPresent(cands, names, from + 1)
  }

  /** An explicit name is used only when it is given, non-empty (Python
      truthiness) and a column of the dataset. */
  predicate Usable(target: Option<string>, names: seq<string>)
  {
    target.Some? && target.value != "" && target.value in names
  }

  /** The label column: the explicit name when usable, otherwise the first
      candidate present; an error when there is neither. */
  function InferTargetColumn(names: seq<string>, target: Option<string>): (r: Result<string, string>)
    ensures r.Success? ==> r.value in names
    ensures Usable(target, names) ==> r == Success(target.value)
    ensures !Usable(target, names) ==>
              (r.Success? <==> exists k :: 0 <= k < |Candidates| && Candidates[k] in names)
    ensures !Usable(target, names) && r.Success? ==>
              exists k :: 0 <= k < |Candidates| && Candidates[k] == r.value &&
                forall j :: 0 <= j < k ==> Candidates[j] !in names
    ensures r.Failure? ==> r.error == NoTargetMessage
  {
    if Usable(target, names) then Success(target.value)
    else
      match FirstPresent(Candidates, names, 0)
      case Some(k) => Success(Candidates[k])
      case None => Failure(NoTargetMessage)
  }

  /** An explicit column wins over every candidate, `Churn` included. */
  lemma ExplicitTargetWins(names: seq<string>, t: string)
    requires t != "" && t in names && "Churn" in names
    ensures InferTargetColumn(names, Some(t)) == Success(t)
  {
  }

  /** An empty or absent explicit name falls back to the candidates: with
      both `churn` and `label` present and no `Churn`, `churn` is chosen. */
  lemma {:induction false} FallbackPicksEarliestCandidate(names: seq<string>, t: string)
    requires t == "" || t !in names
    requires "Churn" !in names && "churn" in names && "label" in names
    ensures InferTargetColumn(names, Some(t)) == Success("churn")
    ensures InferTargetColumn(names, None) == Success("churn")
  {
    var r := InferTargetColumn(names, None);
    assert Candidates[1] in names;
    var k :| 0 <= k < |Candidates| && Candidates[k] == r.value &&
             forall j :: 0 <= j < k ==> Candidates[j] !in names;
    assert k == 1;
  }

  // ---------------------------------------------------------------------
  // Mapping the label column to 0/1
  // ---------------------------------------------------------------------

  const Positive: set<string> := {"yes", "y", "true", "1", "churn", "churned", "cancel", "cancelled"}
  const Negative: set<string> := {"no", "n", "false", "0", "stay", "active", "not churn", "not_churn"}

  /** At most this many unrecognized values are reported. */
  const MaxReported: nat := 20

  /** `.str.strip().str.lower()` */
  function Normalize(v: string): string
  {
    Lower(Strip(v))
  }

  function NormalizeAll(ss: seq<string>): (s: seq<string>)
  {
    seq(|ss|, i requires 0 <= i < |ss| => Normalize(ss[i]))
  }

  /** The label of one normalized value: 1 for a positive token, else 0 for
      a negative one, else none (pandas' NaN). */
  function TokenLabel(v: string): Option<int>
  {
    if v in Positive then Some(1) else if v in Negative then Some(0) else None
  }

  /** The label is 1 exactly for positive tokens, 0 exactly for negative
      ones, and missing exactly for values in neither vocabulary. */
  lemma TokenLabelCases(v: string)
    ensures TokenLabel(v) == Some(1) <==> v in Positive
    ensures TokenLabel(v) == Some(0) <==> v in Negative
    ensures TokenLabel(v).None? <==> v !in Positive && v !in Negative
  {
    VocabulariesDisjoint();
  }

  /** A normalized value is lower-case and has no whitespace at either end. */
  lemma NormalizeShape(v: string)
    ensures var r := Normalize(v);
            |r| <= |v| && (forall i :: 0 <= i < |r| ==> !IsUpper(r[i])) &&
            (r == [] || (!IsSpace(r[0]) && !IsSpace(r[|r| - 1])))
  {
    var t := Strip(v);
    assert forall i :: 0 <= i < |t| ==> IsSpace(Lower(t)[i]) == IsSpace(t[i]);
  }

  predicate Recognized(v: string)
  {
    TokenLabel(v).Some?
  }

  /** `not mapped.isna().any()` */
  predicate AllRecognized(s: seq<string>)
  {
    forall i :: 0 <= i < |s| ==> Recognized(s[i])
  }

  /** The first `n` elements, or all of them when there are fewer. */
  function Take(s: seq<string>, n: nat): (r: seq<string>)
    ensures |r| == if |s| <= n then |s| else n
    ensures r == s[..|r|]
  {
    if |s| <= n then s else s[..n]
  }

  /** Labels of normalized text values that are all recognized. */
  function TokenLabels(s: seq<string>): (r: seq<int>)
    requires AllRecognized(s)
    ensures |r| == |s|
    ensures forall i :: 0 <= i < |s| ==> r[i] == 0 || r[i] == 1
    ensures forall i :: 0 <= i < |s| ==>
              (r[i] == 1 <==> s[i] in Positive) && (r[i] == 0 <==> s[i] in Negative)
  {
    var r := seq(|s|, i requires 0 <= i < |s| => assert Recognized(s[i]); TokenLabel(s[i]).value);
    forall i | 0 <= i < |s|
      ensures (r[i] == 0 || r[i] == 1) && (r[i] == 1 <==> s[i] in Positive) && (r[i] == 0 <==> s[i] in Negative)
    {
      assert Recognized(s[i]);
    }
    r
  }

  /** `sorted(set(bad))[:20]` for the unrecognized values `bad`. */
  function Offenders(s: seq<string>): (e: seq<string>)
    requires !AllRecognized(s)
    ensures 0 < |e| <= MaxReported && StrictlySorted(e)
    ensures forall v :: v in e ==> !Recognized(v) && v in s
  {
    var unknown := Filter(s, v => !Recognized(v));
    var i :| 0 <= i < |s| && !Recognized(s[i]);
    assert s[i] in unknown;
    var sorted := SortedSet(unknown);
    var e := Take(sorted, MaxReported);
    assert forall v :: v in e ==> v in sorted;
    e
  }

  /** The text branch of `_to_binary` once values are normalized: map each
      value through the two vocabularies, or report the unrecognized ones. */
  function Classify(s: seq<string>): (r: Result<seq<int>, seq<string>>)
    ensures r.Success? <==> AllRecognized(s)
    ensures r.Success? ==> |r.value| == |s|
    ensures r.Success? ==> forall i :: 0 <= i < |s| ==> r.value[i] == 0 || r.value[i] == 1
    ensures r.Success? ==>
              forall i :: 0 <= i < |s| ==>
                (r.value[i] == 1 <==> s[i] in Positive) && (r.value[i] == 0 <==> s[i] in Negative)
    ensures r.Failure? ==> 0 < |r.error| <= MaxReported && StrictlySorted(r.error)
    ensures r.Failure? ==> forall v :: v in r.error ==> !Recognized(v) && v in s
  {
    if AllRecognized(s) then Success(TokenLabels(s)) else Failure(Offenders(s))
  }

  /** The label column as 0/1; for text labels, the outcome of `Classify`
      on the normalized values (see `TextLabels`). */
  function ToBinary(y: Values): (r: Result<seq<int>, seq<string>>)
    ensures r.Success? ==> |r.value| == Rows(y)
    ensures r.Success? ==> forall i :: 0 <= i < |r.value| ==> r.value[i] == 0 || r.value[i] == 1
    ensures y.Bools? ==> r.Success? && forall i :: 0 <= i < |y.bools| ==> (r.value[i] == 1 <==> y.bools[i])
    ensures y.Numbers? ==> r.Success? && forall i :: 0 <= i < |y.nums| ==> (r.value[i] == 1 <==> y.nums[i] > 0.0)
    ensures r.Failure? ==> y.Strings?
  {
    match y
    case Bools(bs) => Success(seq(|bs|, i requires 0 <= i < |bs| => if bs[i] then 1 else 0))
    case Numbers(xs) => Success(seq(|xs|, i requires 0 <= i < |xs| => if xs[i] > 0.0 then 1 else 0))
    case Strings(ss) => Classify(NormalizeAll(ss))
  }

  /** A text column is accepted exactly when every stripped, lower-cased
      value is in one of the vocabularies; then each row is 1 for a positive
      token and 0 for a negative one. Otherwise the error holds sorted,
      distinct, unrecognized normalized values, at most `MaxReported`. */
  lemma TextLabels(ss: seq<string>)
    ensures var r := ToBinary(Strings(ss));
            (r.Success? <==> forall i :: 0 <= i < |ss| ==> Recognized(Normalize(ss[i]))) &&
            (r.Success? ==>
               forall i :: 0 <= i < |ss| ==>
                 (r.value[i] == 1 <==> Normalize(ss[i]) in Positive) &&
                 (r.value[i] == 0 <==> Normalize(ss[i]) in Negative)) &&
            (r.Failure? ==>
               0 < |r.error| <= MaxReported && StrictlySorted(r.error) &&
               forall v :: v in r.error ==> !Recognized(v) && v in NormalizeAll(ss))
  {
    var s := NormalizeAll(ss);
    assert forall i :: 0 <= i < |ss| ==> s[i] == Normalize(ss[i]);
  }

  /** No normalized value is both a positive and a negative token. */
  lemma VocabulariesDisjoint()
    ensures Positive * Negative == {}
  {
  }

  /** The numeric case of the label map on a small column. */
  lemma NumericLabelsExample()
    ensures ToBinary(Numbers([0.0, -1.0, 2.0, 0.5, -0.5])) == Success([0, 0, 1, 1, 0])
  {
    var xs := [0.0, -1.0, 2.0, 0.5, -0.5];
    var r := ToBinary(Numbers(xs)).value;
    assert |r| == 5;
    assert r[0] == 0 && r[1] == 0 && r[2] == 1 && r[3] == 1 && r[4] == 0 by {
      assert !(xs[0] > 0.0) && !(xs[1] > 0.0) && xs[2] > 0.0 && xs[3] > 0.0 && !(xs[4] > 0.0);
    }
    assert r == [0, 0, 1, 1, 0];
  }

  /** Every vocabulary token is recognized whatever its letter case and the
      whitespace around it. */
  lemma {:induction false} TokensMatchAnyCaseAnyPadding(pre: string, t: string, post: string)
    requires AllSpace(pre) && AllSpace(post)
    requires Recognized(Lower(t))
    ensures Normalize(pre + t + post) == Lower(t)
    ensures ToBinary(Strings([pre + t + post])) ==
              Success([if Lower(t) in Positive then 1 else 0])
  {
    var v := Lower(t);
    TokensHaveNoPadding(v);
    assert IsSpace(v[0]) == IsSpace(t[0]) && IsSpace(v[|v| - 1]) == IsSpace(t[|t| - 1]);
    StripPadded(pre, t, post);
    var x := pre + t + post;
    TextIsClassified([x]);
    assert NormalizeAll([x]) == [v];
    ClassifySingle(v);
  }

  /** No vocabulary token is empty or begins or ends with whitespace. */
  lemma TokensHaveNoPadding(v: string)
    requires Recognized(v)
    ensures |v| > 0 && !IsSpace(v[0]) && !IsSpace(v[|v| - 1])
  {
  }

  lemma ClassifySingle(v: string)
    requires Recognized(v)
    ensures Classify([v]) == Success([if v in Positive then 1 else 0])
  {
    assert AllRecognized([v]);
    var l := TokenLabels([v]);
    assert |l| == 1 && l[0] == if v in Positive then 1 else 0;
    assert l == [l[0]];
  }

  /** A value in neither vocabulary makes the column fail, and the error
      lists it unless it already holds the `MaxReported` smallest ones. */
  lemma {:induction false} UnrecognizedIsReported(ss: seq<string>, v: string)
    requires v in NormalizeAll(ss) && !Recognized(v)
    ensures ToBinary(Strings(ss)).Failure?
    ensures var e := ToBinary(Strings(ss)).error;
            v in e || (|e| == MaxReported && forall w :: w in e ==> Less(w, v))
  {
    var s := NormalizeAll(ss);
    var unknown := Filter(s, v => !Recognized(v));
    var sorted := SortedSet(unknown);
    assert v in sorted;
    if |sorted| > MaxReported && v !in sorted[..MaxReported] {
      SortedPrefixBelow(sorted, MaxReported, v);
    }
  }

  /** `["Yes", " no ", "maybe"]` fails, and only `"maybe"` is reported. */
  lemma MaybeIsRejected()
    ensures ToBinary(Strings(["Yes", " no ", "maybe"])) == Failure(["maybe"])
  {
    var ss := ["Yes", " no ", "maybe"];
    NormalizeExamples();
    var s := NormalizeAll(ss);
    assert s == ["yes", "no", "maybe"];
    assert !Recognized(s[2]);
    var r := Classify(s);
    assert r.Failure?;
    OnlyMaybeIsReported(r.error);
  }

  lemma OnlyMaybeIsReported(e: seq<string>)
    requires 0 < |e| && StrictlySorted(e)
    requires forall v :: v in e ==> !Recognized(v) && v in ["yes", "no", "maybe"]
    ensures e == ["maybe"]
  {
    assert Recognized("yes") && Recognized("no");
    assert e[0] in e;
    if |e| > 1 {
      assert e[1] in e;
      assert Less(e[0], e[1]);
      LessIrreflexive("maybe");
    }
    assert e == [e[0]];
  }

  lemma NormalizeExamples()
    ensures Normalize("Yes") == "yes"
    ensures Normalize(" no ") == "no"
    ensures Normalize("maybe") == "maybe"
  {
    StripExamples();
    LowerExamples();
  }

  lemma StripExamples()
    ensures Strip("Yes") == "Yes" && Strip(" no ") == "no" && Strip("maybe") == "maybe"
  {
    StripPadded([], "Yes", []);
    assert [] + "Yes" + [] == "Yes";
    StripPadded(" ", "no", " ");
    assert " " + "no" + " " == " no ";
    StripPadded([], "maybe", []);
    assert [] + "maybe" + [] == "maybe";
  }

  lemma LowerExamples()
    ensures Lower("Yes") == "yes" && Lower("no") == "no" && Lower("maybe") == "maybe"
  {
    var l := Lower("Yes");
    assert l[0] == 'y' && l[1] == 'e' && l[2] == 's';
    var m := Lower("maybe");
    assert m[0] == 'm' && m[1] == 'a' && m[2] == 'y' && m[3] == 'b' && m[4] == 'e';
    var n := Lower("no");
    assert n[0] == 'n' && n[1] == 'o';
  }

  // ---------------------------------------------------------------------
  // The label of a row depends on that row only
  // ---------------------------------------------------------------------

  /** Rows `p[0], p[1], ...` of a column, in that order. */
  function Select(y: Values, p: seq<nat>): (z: Values)
    requires forall k :: 0 <= k < |p| ==> p[k] < Rows(y)
    ensures Rows(z) == |p|
  {
    assert forall k :: 0 <= k < |p| ==> p[k] < Rows(y);
    match y
    case Bools(bs) => Bools(seq(|p|, k requires 0 <= k < |p| => bs[p[k]]))
    case Numbers(xs) => Numbers(seq(|p|, k requires 0 <= k < |p| => xs[p[k]]))
    case Strings(ss) => Strings(seq(|p|, k requires 0 <= k < |p| => ss[p[k]]))
  }

  /** Selecting, repeating or reordering rows of an accepted column selects,
      repeats or reorders its labels in the same way. */
  lemma {:induction false} LabelsFollowRows(y: Values, p: seq<nat>)
    requires forall k :: 0 <= k < |p| ==> p[k] < Rows(y)
    requires ToBinary(y).Success?
    ensures ToBinary(Select(y, p)).Success?
    ensures ToBinary(Select(y, p)).value ==
              seq(|p|, k requires 0 <= k < |p| => ToBinary(y).value[p[k]])
  {
    var z := Select(y, p);
    var l := ToBinary(y).value;
    var m := seq(|p|, k requires 0 <= k < |p| => l[p[k]]);
    if y.Strings? {
      TextLabels(y.strs);
      TextLabels(z.strs);
      assert forall k :: 0 <= k < |p| ==> Recognized(Normalize(z.strs[k])) by {
        forall k | 0 <= k < |p| ensures Recognized(Normalize(z.strs[k])) {
          assert z.strs[k] == y.strs[p[k]];
        }
      }
    }
    var r := ToBinary(z).value;
    assert |r| == |m|;
    forall k | 0 <= k < |p| ensures r[k] == m[k] {
      assert r[k] == 1 <==> m[k] == 1;
    }
  }

  /** `p` and `q` are mutually inverse permutations of `0..n-1`. */
  predicate IsPermutation(p: seq<nat>, q: seq<nat>, n: nat)
  {
    |p| == n && |q| == n &&
    (forall k :: 0 <= k < n ==> p[k] < n && q[p[k]] == k) &&
    (forall k :: 0 <= k < n ==> q[k] < n && p[q[k]] == k)
  }

  /** The error report depends only on which values occur, not on where. */
  lemma {:induction false} OffendersSameElements(s: seq<string>, t: seq<string>)
    requires !AllRecognized(s) && !AllRecognized(t)
    requires forall v :: v in s <==> v in t
    ensures Offenders(s) == Offenders(t)
  {
    var us, ut := Filter(s, v => !Recognized(v)), Filter(t, v => !Recognized(v));
    SortedUnique(SortedSet(us), SortedSet(ut));
  }

  lemma AllRecognizedSameElements(s: seq<string>, t: seq<string>)
    requires forall v :: v in s <==> v in t
    ensures AllRecognized(s) == AllRecognized(t)
  {
    if !AllRecognized(s) {
      var i :| 0 <= i < |s| && !Recognized(s[i]);
      assert s[i] in t;
    }
    if !AllRecognized(t) {
      var i :| 0 <= i < |t| && !Recognized(t[i]);
      assert t[i] in s;
    }
  }

  /** Reordered values: the same values occur. */
  lemma PermutedSameElements(s: seq<string>, p: seq<nat>, q: seq<nat>)
    requires IsPermutation(p, q, |s|)
    ensures forall v :: v in s <==> v in seq(|p|, k requires 0 <= k < |p| => s[p[k]])
  {
    var t := seq(|p|, k requires 0 <= k < |p| => s[p[k]]);
    forall v ensures v in s <==> v in t {
      if v in s {
        var i :| 0 <= i < |s| && s[i] == v;
        assert t[q[i]] == v;
      }
    }
  }

  /** Reordering the rows does not change whether the column is accepted,
      nor the error reported when it is not. */
  lemma {:induction false} ReorderKeepsOutcome(y: Values, p: seq<nat>, q: seq<nat>)
    requires IsPermutation(p, q, Rows(y))
    ensures ToBinary(Select(y, p)).Success? == ToBinary(y).Success?
    ensures ToBinary(y).Failure? ==> ToBinary(Select(y, p)) == ToBinary(y)
  {
    if ToBinary(y).Success? {
      LabelsFollowRows(y, p);
    } else {
      ReorderTextFailure(y.strs, p, q);
    }
  }

  lemma {:induction false} ReorderTextFailure(ss: seq<string>, p: seq<nat>, q: seq<nat>)
    requires IsPermutation(p, q, |ss|)
    requires ToBinary(Strings(ss)).Failure?
    ensures ToBinary(Select(Strings(ss), p)) == ToBinary(Strings(ss))
  {
    var z := Select(Strings(ss), p);
    var s := NormalizeAll(ss);
    NormalizeSelected(ss, p);
    TextIsClassified(ss);
    TextIsClassified(z.strs);
    assert !AllRecognized(s);
    ReorderFailure(s, p, q);
  }

  /** Normalizing selected rows selects the normalized rows. */
  lemma NormalizeSelected(ss: seq<string>, p: seq<nat>)
    requires forall k :: 0 <= k < |p| ==> p[k] < |ss|
    ensures NormalizeAll(Select(Strings(ss), p).strs) ==
              seq(|p|, k requires 0 <= k < |p| => NormalizeAll(ss)[p[k]])
  {
    var z := Select(Strings(ss), p);
    var s, t := NormalizeAll(ss), NormalizeAll(z.strs);
    forall k | 0 <= k < |p| ensures t[k] == s[p[k]] {
      assert z.strs[k] == ss[p[k]];
    }
  }

  lemma TextIsClassified(ss: seq<string>)
    ensures ToBinary(Strings(ss)) == Classify(NormalizeAll(ss))
  {
  }

  lemma {:induction false} ReorderFailure(s: seq<string>, p: seq<nat>, q: seq<nat>)
    requires IsPermutation(p, q, |s|)
    requires !AllRecognized(s)
    ensures Classify(seq(|p|, k requires 0 <= k < |p| => s[p[k]])) == Classify(s)
  {
    var t := seq(|p|, k requires 0 <= k < |p| => s[p[k]]);
    PermutedSameElements(s, p, q);
    AllRecognizedSameElements(s, t);
    OffendersSameElements(s, t);
  }

  // ---------------------------------------------------------------------
  // Feature roles
  // ---------------------------------------------------------------------

  /** `df.drop(columns=[target])` */
  function Features(frame: seq<Column>, target: string): (r: seq<Column>)
    ensures forall c :: c in r <==> c in frame && c.name != target
    ensures IsSubsequence(r, frame)
  {
    FilterIsSubsequence(frame, (c: Column) => c.name != target);
    Filter(frame, (c: Column) => c.name != target)
  }

  /** The numeric feature names (`select_dtypes(include=["number"])`, which
      leaves bool columns out) and the remaining feature names, in column
      order. */
  function FeatureRoles(frame: seq<Column>, target: string): (r: (seq<string>, seq<string>))
    ensures forall n :: n in r.0 ==> n != target && n !in r.1
    ensures forall n :: n in r.1 ==> n != target
    ensures forall c :: c in frame && c.name != target ==> c.name in r.0 || c.name in r.1
    ensures forall c :: c in frame && c.name != target && c.values.Numbers? ==> c.name in r.0
    ensures forall n :: n in r.0 ==> exists c :: c in frame && c.name == n && c.values.Numbers?
    ensures forall n :: n in r.1 ==> exists c :: c in frame && c.name == n && !c.values.Numbers?
  {
    var features := Features(frame, target);
    var numeric := Names(Filter(features, (c: Column) => c.values.Numbers?));
    var categorical := Filter(Names(features), n => n !in numeric);
    InNames(features);
    InNames(Filter(features, (c: Column) => c.values.Numbers?));
    (numeric, categorical)
  }

  lemma InNames(cs: seq<Column>)
    ensures forall n :: n in Names(cs) <==> exists c :: c in cs && c.name == n
  {
    forall n ensures n in Names(cs) <==> exists c :: c in cs && c.name == n {
      if exists c :: c in cs && c.name == n {
        var c :| c in cs && c.name == n;
        var i :| 0 <= i < |cs| && cs[i] == c;
        assert Names(cs)[i] == n;
      }
    }
  }

  /** Both feature lists keep the dataset's column order. */
  lemma {:induction false} FeatureRolesKeepOrder(frame: seq<Column>, target: string)
    ensures IsSubsequence(FeatureRoles(frame, target).0, Names(frame))
    ensures IsSubsequence(FeatureRoles(frame, target).1, Names(frame))
  {
    var features := Features(frame, target);
    var numericCols := Filter(features, (c: Column) => c.values.Numbers?);
    var numeric := Names(numericCols);
    FilterIsSubsequence(frame, (c: Column) => c.name != target);
    FilterIsSubsequence(features, (c: Column) => c.values.Numbers?);
    MapSubsequence(features, frame, NameOf);
    MapSubsequence(numericCols, features, NameOf);
    SubsequenceTransitive(numeric, Names(features), Names(frame));
    FilterIsSubsequence(Names(features), n => n !in numeric);
    SubsequenceTransitive(Filter(Names(features), n => n !in numeric), Names(features), Names(frame));
  }

  // ---------------------------------------------------------------------
  // The preparation steps of `train`, in order
  // ---------------------------------------------------------------------

  datatype Roles = Roles(target: string, labels: seq<int>, numeric: seq<string>, categorical: seq<string>)

  datatype TrainError = NoTarget(message: string) | UnrecognizedLabels(values: seq<string>)

  /** `df[name]`: the first column of that name. */
  function Lookup(frame: seq<Column>, name: string): (c: Column)
    requires name in Names(frame)
    ensures c in frame && c.name == name
  {
    if frame[0].name == name then frame[0]
    else
      assert Names(frame)[1..] == Names(frame[1..]);
      Lookup(frame[1..], name)
  }

  /** Label column, labels and feature roles, or the first error raised. */
  function PrepareTraining(frame: seq<Column>, target: Option<string>): (r: Result<Roles, TrainError>)
    ensures r.Failure? && r.error.NoTarget? <==> InferTargetColumn(Names(frame), target).Failure?
    ensures r.Success? ==>
              var t := r.value.target;
              t == InferTargetColumn(Names(frame), target).value &&
              Rows(Lookup(frame, t).values) == |r.value.labels| &&
              (forall i :: 0 <= i < |r.value.labels| ==> r.value.labels[i] == 0 || r.value.labels[i] == 1) &&
              t !in r.value.numeric && t !in r.value.categorical
    ensures r.Success? ==>
              var t := r.value.target;
              ToBinary(Lookup(frame, t).values) == Success(r.value.labels) &&
              (r.value.numeric, r.value.categorical) == FeatureRoles(frame, t)
    ensures r.Failure? && r.error.UnrecognizedLabels? <==>
              InferTargetColumn(Names(frame), target).Success? &&
              ToBinary(Lookup(frame, InferTargetColumn(Names(frame), target).value).values).Failure?
    ensures r.Failure? && r.error.UnrecognizedLabels? ==>
              r.error.values == ToBinary(Lookup(frame, InferTargetColumn(Names(frame), target).value).values).error
    ensures r.Failure? && r.error.UnrecognizedLabels? ==> 0 < |r.error.values| <= MaxReported
    ensures r.Failure? && r.error.NoTarget? ==> r.error.message == NoTargetMessage
  {
    var names := Names(frame);
    match InferTargetColumn(names, target)
    case Failure(msg) => Failure(NoTarget(msg))
    case Success(t) =>
      match ToBinary(Lookup(frame, t).values)
      case Failure(bad) => Failure(UnrecognizedLabels(bad))
      case Success(labels) =>
        var roles := FeatureRoles(frame, t);
        Success(Roles(t, labels, roles.0, roles.1))
  }
}
