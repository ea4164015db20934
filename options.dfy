/** The plugin options of index.js: the JavaScript values an option can
    hold, `merge` and the defaults it is applied to. */
module Options {
  /** A JavaScript value an option object can hold (numbers are integers). */
  datatype Value = Undefined | Null | Bool(b: bool) | Num(n: int) | Str(s: string)

  /** JavaScript truthiness: `undefined`, `null`, `false`, `0` and `""` are
      falsy. */
  predicate Truthy(v: Value) {
    match v
    case Undefined => false
    case Null => false
    case Bool(b) => b
    case Num(n) => n != 0
    case Str(s) => s != []
  }

  function Digit(d: nat): char
    requires d < 10
  {
    ('0' as int + d) as char
  }

  /** The value of one decimal digit. */
  function DigitValue(c: char): nat {
    if '0' <= c <= '9' then c as int - '0' as int else 0
  }

  /** The number a run of decimal digits denotes, most significant first. */
  function DigitsValue(d: string): nat {
    if d == [] then 0 else DigitsValue(d[..|d| - 1]) * 10 + DigitValue(d[|d| - 1])
  }

  /** The decimal digits of `n`. */
  function Decimal(n: nat): (r: string)
    ensures r != [] && forall k :: 0 <= k < |r| ==> '0' <= r[k] <= '9'
  {
    if n < 10 then [Digit(n)] else Decimal(n / 10) + [Digit(n % 10)]
  }

  /** The digits written for `n` denote `n`, and only `0` starts with `0`. */
  lemma {:induction false} DecimalValue(n: nat)
    ensures DigitsValue(Decimal(n)) == n
    ensures |Decimal(n)| > 1 ==> Decimal(n)[0] != '0'
  {
    if n >= 10 {
      DecimalValue(n / 10);
      var d := Decimal(n);
      assert d[..|d| - 1] == Decimal(n / 10);
      assert d[0] == Decimal(n / 10)[0];
    }
  }

  /** `String(v)`, as a template literal interpolates it. */
  function ToJsString(v: Value): string {
    match v
    case Undefined => "undefined"
    case Null => "null"
    case Bool(b) => if b then "true" else "false"
    case Num(n) => if n < 0 then "-" + Decimal(-n) else Decimal(n)
    case Str(s) => s
  }

  /** The own enumerable properties of an object, in `Object.keys` order. */
  type Entries = seq<(string, Value)>

  /** `obj.key`, which is `undefined` for a missing property. */
  function Property(obj: map<string, Value>, key: string): Value {
    if key in obj then obj[key] else Undefined
  }

  // ---------------------------------------------------------------------
  // merge
  // ---------------------------------------------------------------------

  /** One step of `merge`: a defined value is written, `undefined` skipped. */
  function Assign(m: map<string, Value>, e: (string, Value)): map<string, Value> {
    if e.1 != Undefined then m[e.0 := e.1] else m
  }

  /** The steps of `merge` over `es`, in order. */
  function AssignAll(m: map<string, Value>, es: Entries): map<string, Value> {
    if es == [] then m else Assign(AssignAll(m, es[..|es| - 1]), es[|es| - 1])
  }

  /** The entries of all arguments, argument after argument. */
  function Flatten(args: seq<Entries>): Entries {
    if args == [] then [] else Flatten(args[..|args| - 1]) + args[|args| - 1]
  }

  function MergeSpec(args: seq<Entries>): map<string, Value> {
    AssignAll(map[], Flatten(args))
  }

  /** `merge(...args)`: a fresh object filled key by key, argument by
      argument, skipping `undefined` values. */
  method Merge(args: seq<Entries>) returns (merged: map<string, Value>)
    ensures merged == MergeSpec(args)
  {
    merged := map[];
    var i := 0;
    while i < |args|
      invariant 0 <= i <= |args|
      invariant merged == AssignAll(map[], Flatten(args[..i]))
    {
      var arg := args[i];
      ghost var done := Flatten(args[..i]);
      var j := 0;
      assert done + arg[..0] == done;
      while j < |arg|
        invariant 0 <= j <= |arg|
        invariant merged == AssignAll(map[], done + arg[..j])
      {
        var key := arg[j].0;
        var value := arg[j].1;
        AssignAllSnoc(map[], done + arg[..j], arg[j]);
        assert done + arg[..j + 1] == (done + arg[..j]) + [arg[j]];
        ghost var before := merged;
        if value != Undefined {
          merged := merged[key := value];
        }
        assert merged == Assign(before, arg[j]);
        j := j + 1;
      }
      FlattenSnoc(args, i);
      assert arg[..j] == arg;
      i := i + 1;
    }
    assert args[..i] == args;
  }

  lemma AssignAllSnoc(m: map<string, Value>, es: Entries, e: (string, Value))
    ensures AssignAll(m, es + [e]) == Assign(AssignAll(m, es), e)
  {
    assert (es + [e])[..|es|] == es;
  }

  lemma FlattenSnoc(args: seq<Entries>, i: nat)
    requires i < |args|
    ensures Flatten(args[..i + 1]) == Flatten(args[..i]) + args[i]
  {
    assert args[..i + 1][..i] == args[..i];
  }

  lemma {:induction false} FlattenMembers(args: seq<Entries>, e: (string, Value))
    ensures e in Flatten(args) <==> exists i :: 0 <= i < |args| && e in args[i]
  {
    if args != [] {
      var init := args[..|args| - 1];
      FlattenMembers(init, e);
      assert forall i :: 0 <= i < |init| ==> init[i] == args[i];
    }
  }

  /** After the steps over `es`, a key is present exactly when it was
      before or some entry defines it. */
  lemma {:induction false} AssignAllKeys(m: map<string, Value>, es: Entries, k: string)
    ensures k in AssignAll(m, es) <==> k in m || exists v :: (k, v) in es && v != Undefined
  {
    if es != [] {
      var init := es[..|es| - 1];
      AssignAllKeys(m, init, k);
      assert es == init + [es[|es| - 1]];
    }
  }

  /** Steps never write `undefined`. */
  lemma {:induction false} AssignAllDefined(m: map<string, Value>, es: Entries)
    requires forall k :: k in m ==> m[k] != Undefined
    ensures forall k :: k in AssignAll(m, es) ==> AssignAll(m, es)[k] != Undefined
  {
    if es != [] {
      AssignAllDefined(m, es[..|es| - 1]);
    }
  }

  /** A key whose later entries are all `undefined` keeps the value of its
      last defined entry. */
  lemma {:induction false} AssignAllLast(m: map<string, Value>, es: Entries, t: nat)
    requires t < |es| && es[t].1 != Undefined
    requires forall u :: t < u < |es| && es[u].0 == es[t].0 ==> es[u].1 == Undefined
    ensures es[t].0 in AssignAll(m, es) && AssignAll(m, es)[es[t].0] == es[t].1
  {
    var init := es[..|es| - 1];
    if t < |es| - 1 {
      AssignAllLast(m, init, t);
    }
  }

  /** Keys no entry defines keep their old value. */
  lemma {:induction false} AssignAllUntouched(m: map<string, Value>, es: Entries, k: string)
    requires forall u :: 0 <= u < |es| && es[u].0 == k ==> es[u].1 == Undefined
    ensures k in AssignAll(m, es) <==> k in m
    ensures k in m ==> AssignAll(m, es)[k] == m[k]
  {
    if es != [] {
      AssignAllUntouched(m, es[..|es| - 1], k);
    }
  }

  /** The keys of the merged object are the keys that have a defined value
      in some argument, and no merged value is `undefined`. */
  lemma MergeKeys(args: seq<Entries>, k: string)
    ensures k in MergeSpec(args) <==>
      exists i, v :: 0 <= i < |args| && (k, v) in args[i] && v != Undefined
    ensures k in MergeSpec(args) ==> MergeSpec(args)[k] != Undefined
  {
    AssignAllKeys(map[], Flatten(args), k);
    forall v ensures (k, v) in Flatten(args) <==> exists i :: 0 <= i < |args| && (k, v) in args[i] {
      FlattenMembers(args, (k, v));
    }
    AssignAllDefined(map[], Flatten(args));
  }

  lemma {:induction false} FlattenSplit(args: seq<Entries>, i: nat)
    requires i < |args|
    ensures Flatten(args) == Flatten(args[..i]) + args[i] + Flatten(args[i + 1..])
    decreases |args|
  {
    if i < |args| - 1 {
      var init := args[..|args| - 1];
      FlattenSplit(init, i);
      assert init[..i] == args[..i];
      assert init[i + 1..] == args[i + 1..|args| - 1];
      assert args[i + 1..][..|args[i + 1..]| - 1] == args[i + 1..|args| - 1];
    } else {
      assert args[..i] == args[..|args| - 1];
      assert args[i + 1..] == [];
    }
  }

  /** Precedence: the value of a key is the one from the last argument that
      defines it (each argument holding a key at most once, as an object
      does). */
  lemma MergeLastDefinerWins(args: seq<Entries>, i: nat, j: nat)
    requires i < |args| && j < |args[i]| && args[i][j].1 != Undefined
    requires forall u :: j < u < |args[i]| ==> args[i][u].0 != args[i][j].0
    requires forall i', v :: i < i' < |args| && (args[i][j].0, v) in args[i'] ==> v == Undefined
    ensures args[i][j].0 in MergeSpec(args) && MergeSpec(args)[args[i][j].0] == args[i][j].1
  {
    var k := args[i][j].0;
    var before, rest := Flatten(args[..i]), Flatten(args[i + 1..]);
    FlattenSplit(args, i);
    var es := Flatten(args);
    var t := |before| + j;
    assert es[t] == args[i][j];
    assert forall u :: |before| <= u < |before| + |args[i]| ==> es[u] == args[i][u - |before|];
    forall u | t < u < |es| && es[u].0 == k ensures es[u].1 == Undefined {
      if u >= |before| + |args[i]| {
        assert es[u] == rest[u - |before| - |args[i]|];
        assert es[u] in rest;
        FlattenMembers(args[i + 1..], es[u]);
        var i'' :| 0 <= i'' < |args[i + 1..]| && es[u] in args[i + 1..][i''];
        assert es[u] in args[i + 1 + i''];
      }
    }
    AssignAllLast(map[], es, t);
  }

  lemma {:induction false} AssignAllUndefined(m: map<string, Value>, es: Entries)
    requires forall t :: 0 <= t < |es| ==> es[t].1 == Undefined
    ensures AssignAll(m, es) == m
  {
    if es != [] {
      AssignAllUndefined(m, es[..|es| - 1]);
    }
  }

  lemma {:induction false} AssignAllAppend(m: map<string, Value>, a: Entries, b: Entries)
    ensures AssignAll(m, a + b) == AssignAll(AssignAll(m, a), b)
    decreases |b|
  {
    if b == [] {
      assert a + b == a;
    } else {
      assert (a + b)[..|a + b| - 1] == a + b[..|b| - 1];
      AssignAllAppend(m, a, b[..|b| - 1]);
    }
  }

  /** An argument whose values are all `undefined` changes nothing. */
  lemma MergeUndefinedIgnored(args: seq<Entries>, extra: Entries)
    requires forall t :: 0 <= t < |extra| ==> extra[t].1 == Undefined
    ensures MergeSpec(args + [extra]) == MergeSpec(args)
  {
    assert (args + [extra])[..|args|] == args;
    AssignAllAppend(map[], Flatten(args), extra);
    AssignAllUndefined(MergeSpec(args), extra);
  }

  // ---------------------------------------------------------------------
  // The plugin's options
  // ---------------------------------------------------------------------

  /** `defaultPluginOptions`. The two figure classes are spelt `graviz`, as
      in the source. */
  const DefaultPluginOptions: Entries := [
    ("optimize", Bool(true)),
    ("wrapperTag", Str("div")),
    ("wrapperClass", Str("remark-graphviz-graph")),
    ("figureClass", Str("remark-graviz-figure")),
    ("figcaptionClass", Str("remark-graviz-figcaption")),
    ("firstCommentIsCaption", Bool(true)),
    ("generateAriaDescription", Bool(true))]

  /** The option names the plugin reads, in the order of the object it
      builds from its destructured parameters. */
  const OptionNames: seq<string> := [
    "optimize", "wrapperTag", "wrapperClass", "figureClass", "figcaptionClass",
    "firstCommentIsCaption", "generateAriaDescription"]

  /** `{ optimize, wrapperTag, ... }` built from the destructured second
      argument: every name is present, `undefined` when the user left it
      out. */
  function Picked(user: map<string, Value>): (r: Entries)
    ensures |r| == |OptionNames|
    ensures forall t :: 0 <= t < |r| ==> r[t] == (OptionNames[t], Property(user, OptionNames[t]))
  {
    seq(|OptionNames|, t requires 0 <= t < |OptionNames| => (OptionNames[t], Property(user, OptionNames[t])))
  }

  /** `merge(defaultPluginOptions, { ... })` for the user's options object
      (`{}` when none is given). */
  method ResolveOptions(user: map<string, Value>) returns (options: map<string, Value>)
    ensures options == MergeSpec([DefaultPluginOptions, Picked(user)])
  {
    options := Merge([DefaultPluginOptions, Picked(user)]);
  }

  lemma DefaultsShape()
    ensures |DefaultPluginOptions| == |OptionNames|
    ensures forall t :: 0 <= t < |OptionNames| ==>
      DefaultPluginOptions[t].0 == OptionNames[t] && DefaultPluginOptions[t].1 != Undefined
    ensures forall t, u :: 0 <= t < u < |OptionNames| ==> OptionNames[t] != OptionNames[u]
  {
  }

  /** Every option is the user's value when it is defined and the default
      otherwise; no other key is present, so `svgoPlugins` and unknown keys
      never reach the options. */
  lemma ResolvedOptions(user: map<string, Value>, t: nat)
    requires t < |OptionNames|
    ensures var options := MergeSpec([DefaultPluginOptions, Picked(user)]);
      var name := OptionNames[t];
      name in options &&
      options[name] == (if Property(user, name) != Undefined then Property(user, name)
                        else DefaultPluginOptions[t].1)
  {
    DefaultsShape();
    var args := [DefaultPluginOptions, Picked(user)];
    var name := OptionNames[t];
    if Property(user, name) != Undefined {
      MergeLastDefinerWins(args, 1, t);
    } else {
      forall v | (name, v) in args[1] ensures v == Undefined {
        var u :| 0 <= u < |args[1]| && args[1][u] == (name, v);
        assert OptionNames[u] == name;
        assert u == t;
      }
      MergeLastDefinerWins(args, 0, t);
    }
  }

  lemma ResolvedOptionKeys(user: map<string, Value>, k: string)
    ensures k in MergeSpec([DefaultPluginOptions, Picked(user)]) <==> k in OptionNames
  {
    DefaultsShape();
    var args := [DefaultPluginOptions, Picked(user)];
    MergeKeys(args, k);
    if k in OptionNames {
      var t :| 0 <= t < |OptionNames| && OptionNames[t] == k;
      assert (k, DefaultPluginOptions[t].1) in args[0];
    }
  }

  /** Leaving every option out gives the defaults. */
  lemma NoUserOptions(t: nat)
    requires t < |OptionNames|
    ensures OptionNames[t] in MergeSpec([DefaultPluginOptions, Picked(map[])])
    ensures MergeSpec([DefaultPluginOptions, Picked(map[])])[OptionNames[t]] == DefaultPluginOptions[t].1
  {
    ResolvedOptions(map[], t);
  }
}
