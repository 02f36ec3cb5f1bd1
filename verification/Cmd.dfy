// The reordering of the arguments in cmd_parse (cmd.c): three passes collect the flags, the options with
// their arguments, and the positional arguments, and the result replaces argv.

module Cmd {
  import opened Bytes

  type Text = seq<Byte>

  const DASH: Byte := 45
  const EQUALS: Byte := 61

  datatype CliOption = CliOption(shortName: Text, longName: Text, requiresArg: bool)

  // ----- one argument -----

  predicate Dashed(arg: Text) {
    arg != [] && arg[0] == DASH
  }

  predicate IsLong(arg: Text) {
    |arg| > 1 && arg[1] == DASH
  }

  function OptionText(arg: Text): Text
    requires Dashed(arg)
  {
    if IsLong(arg) then arg[2..] else arg[1..]
  }

  /** What `option_requires_arg` finds: the first option with the name decides. */
  function Requires(name: Text, options: seq<CliOption>, long: bool): bool {
    if options == [] then false
    else if name == (if long then options[0].longName else options[0].shortName) then options[0].requiresArg
    else Requires(name, options[1..], long)
  }

  /** An option that takes the next argument. */
  predicate TakesNext(arg: Text, options: seq<CliOption>) {
    Dashed(arg) && EQUALS !in OptionText(arg) && Requires(OptionText(arg), options, IsLong(arg))
  }

  datatype Block = Flags | Options | Positionals

  /** The argument at `i` belongs to the option before it. */
  predicate IsArgument(argv: seq<Text>, options: seq<CliOption>, i: nat)
    requires i < |argv|
  {
    i > 1 && !Dashed(argv[i]) && TakesNext(argv[i - 1], options)
  }

  /** The block that an argument goes to. */
  function BlockOf(argv: seq<Text>, options: seq<CliOption>, i: nat): Block
    requires i < |argv|
  {
    if Dashed(argv[i]) then (if EQUALS in OptionText(argv[i]) || TakesNext(argv[i], options) then Options else Flags)
    else if IsArgument(argv, options, i) then Options
    else Positionals
  }

  /** The places of a block's arguments among the first `n`, without the program's name. */
  function Places(argv: seq<Text>, options: seq<CliOption>, b: Block, n: nat): (r: seq<nat>)
    requires 1 <= n <= |argv|
    ensures |r| <= n - 1 && forall j :: 0 <= j < |r| ==> 1 <= r[j] < n
  {
    if n == 1 then []
    else Places(argv, options, b, n - 1) + (if BlockOf(argv, options, n - 1) == b then [n - 1] else [])
  }

  /** The old place of every argument in the new order. */
  function Order(argv: seq<Text>, options: seq<CliOption>): seq<nat>
    requires argv != []
  {
    [0] + Places(argv, options, Flags, |argv|) + Places(argv, options, Options, |argv|) + Places(argv, options, Positionals, |argv|)
  }

  // ----- the new order is a permutation -----

  lemma {:induction false} PlacesCount(argv: seq<Text>, options: seq<CliOption>, n: nat)
    requires 1 <= n <= |argv|
    ensures |Places(argv, options, Flags, n)| + |Places(argv, options, Options, n)| + |Places(argv, options, Positionals, n)| == n - 1
  {
    hide BlockOf;
    if n > 1 {
      PlacesCount(argv, options, n - 1);
    }
  }

  lemma {:induction false} PlacesGrow(argv: seq<Text>, options: seq<CliOption>, b: Block, m: nat, n: nat)
    requires 1 <= m <= n <= |argv|
    ensures |Places(argv, options, b, m)| <= |Places(argv, options, b, n)|
  {
    hide BlockOf;
    if m < n {
      PlacesGrow(argv, options, b, m, n - 1);
    }
  }

  /** A block holds the places of its arguments, each once, in their old order. */
  lemma {:induction false} PlacesAre(argv: seq<Text>, options: seq<CliOption>, b: Block, n: nat)
    requires 1 <= n <= |argv|
    ensures var r := Places(argv, options, b, n);
            && (forall i, j :: 0 <= i < j < |r| ==> r[i] < r[j])
            && (forall i :: 1 <= i < n ==> (i in r <==> BlockOf(argv, options, i) == b))
  {
    hide BlockOf;
    if n > 1 {
      PlacesAre(argv, options, b, n - 1);
    }
  }

  /** The parts of the new order. */
  lemma OrderAt(argv: seq<Text>, options: seq<CliOption>, j: nat)
    requires argv != []
    ensures |Order(argv, options)| == |argv|
    ensures j < |argv| ==>
              var f, o := |Places(argv, options, Flags, |argv|)|, |Places(argv, options, Options, |argv|)|;
              var r := Order(argv, options)[j];
              && r < |argv| && (j == 0 <==> r == 0)
              && (j > 0 ==> BlockOf(argv, options, r) == (if j <= f then Flags else if j <= f + o then Options else Positionals))
  {
    hide BlockOf;
    var n := |argv|;
    PlacesCount(argv, options, n);
    PlacesAre(argv, options, Flags, n);
    PlacesAre(argv, options, Options, n);
    PlacesAre(argv, options, Positionals, n);
    hide Places;
    var f, o, p := Places(argv, options, Flags, n), Places(argv, options, Options, n), Places(argv, options, Positionals, n);
    if 0 < j < n {
      var r := Order(argv, options)[j];
      assert r == if j <= |f| then f[j - 1] else if j <= |f| + |o| then o[j - 1 - |f|] else p[j - 1 - |f| - |o|];
      assert j <= |f| ==> r in f;
      assert |f| < j <= |f| + |o| ==> r in o;
      assert |f| + |o| < j ==> r in p;
    }
  }

  /** Within a block the old order is kept; different blocks have different places. */
  lemma OrderIncreases(argv: seq<Text>, options: seq<CliOption>, i: nat, j: nat)
    requires i < j < |argv|
    ensures |Order(argv, options)| == |argv| && forall k :: 0 <= k < |argv| ==> Order(argv, options)[k] < |argv|
    ensures var r := Order(argv, options);
            && r[i] != r[j]
            && (0 < i && BlockOf(argv, options, r[i]) == BlockOf(argv, options, r[j]) ==> r[i] < r[j])
  {
    hide BlockOf;
    hide Places;
    var n := |argv|;
    OrderAt(argv, options, i);
    OrderAt(argv, options, j);
    forall k | 0 <= k < n ensures Order(argv, options)[k] < n { OrderAt(argv, options, k); }
    var f, o, p := Places(argv, options, Flags, n), Places(argv, options, Options, n), Places(argv, options, Positionals, n);
    var r := Order(argv, options);
    if i > 0 && j <= |f| {
      PlacesIncrease(argv, options, Flags, i - 1, j - 1);
      assert r[i] == f[i - 1] && r[j] == f[j - 1];
    } else if |f| < i && j <= |f| + |o| {
      PlacesIncrease(argv, options, Options, i - 1 - |f|, j - 1 - |f|);
      assert r[i] == o[i - 1 - |f|] && r[j] == o[j - 1 - |f|];
    } else if |f| + |o| < i {
      PlacesIncrease(argv, options, Positionals, i - 1 - |f| - |o|, j - 1 - |f| - |o|);
      assert r[i] == p[i - 1 - |f| - |o|] && r[j] == p[j - 1 - |f| - |o|];
    }
  }

  lemma PlacesIncrease(argv: seq<Text>, options: seq<CliOption>, b: Block, i: nat, j: nat)
    requires argv != [] && i < j < |Places(argv, options, b, |argv|)|
    ensures Places(argv, options, b, |argv|)[i] < Places(argv, options, b, |argv|)[j]
  {
    hide BlockOf;
    PlacesAre(argv, options, b, |argv|);
    hide Places;
  }

  lemma OrderHas(argv: seq<Text>, options: seq<CliOption>, i: nat)
    requires i < |argv|
    ensures i in Order(argv, options)
  {
    hide BlockOf;
    var n := |argv|;
    var f, o, p := Places(argv, options, Flags, n), Places(argv, options, Options, n), Places(argv, options, Positionals, n);
    if i > 0 {
      var b := BlockOf(argv, options, i);
      PlacesAre(argv, options, b, n);
      hide Places;
      assert [0] + f + o + p == [0] + f + (o + p);
    }
  }

  /** Every argument has one place in the new order, and the order has no other places. */
  lemma OrderIsPermutation(argv: seq<Text>, options: seq<CliOption>)
    requires argv != []
    ensures var r := Order(argv, options);
            && |r| == |argv|
            && (forall j :: 0 <= j < |r| ==> r[j] < |argv|)
            && (forall i :: 0 <= i < |argv| ==> i in r)
            && (forall i, j :: 0 <= i < j < |r| ==> r[i] != r[j])
  {
    hide BlockOf;
    hide Places;
    hide Order;
    var n := |argv|;
    var r := Order(argv, options);
    OrderAt(argv, options, 0);
    forall j | 0 <= j < n ensures r[j] < n { OrderAt(argv, options, j); }
    forall i, j | 0 <= i < j < n ensures r[i] != r[j] { OrderIncreases(argv, options, i, j); }
    forall i | 0 <= i < n ensures i in r { OrderHas(argv, options, i); }
  }

  /** An argument of an option stands right behind its option in the new order. */
  lemma {:induction false} ArgumentFollows(argv: seq<Text>, options: seq<CliOption>, n: nat, j: nat)
    requires 1 <= n <= |argv|
    requires j < |Places(argv, options, Options, n)| && IsArgument(argv, options, Places(argv, options, Options, n)[j])
    ensures var r := Places(argv, options, Options, n);
            j > 0 && r[j - 1] == r[j] - 1 && TakesNext(argv[r[j - 1]], options)
  {
    var r, before := Places(argv, options, Options, n), Places(argv, options, Options, n - 1);
    if j < |before| {
      ArgumentFollows(argv, options, n - 1, j);
    } else {
      assert before == Places(argv, options, Options, n - 2) + [n - 2];
    }
  }

  // ----- what the blocks are, by the texts of the arguments -----

  /** An argument is the name of an option: two dashes and the long name, or one dash and the short one. */
  predicate Names(arg: Text, o: CliOption) {
    || arg == [45, 45] + o.longName
    || (arg == [45] + o.shortName && (o.shortName == [] || o.shortName[0] != 45))
  }

  /** An argument without an equals sign that names an option, of which the first one takes an argument. */
  ghost predicate Needs(arg: Text, options: seq<CliOption>) {
    && 61 !in arg
    && exists k :: 0 <= k < |options| && options[k].requiresArg && Names(arg, options[k])
                   && forall i :: 0 <= i < k ==> !Names(arg, options[i])
  }

  ghost function Kind(argv: seq<Text>, options: seq<CliOption>, i: nat): Block
    requires i < |argv|
  {
    if argv[i] != [] && argv[i][0] == 45 then (if 61 in argv[i] || Needs(argv[i], options) then Options else Flags)
    else if i > 1 && Needs(argv[i - 1], options) then Options
    else Positionals
  }

  lemma NamesIs(arg: Text, o: CliOption)
    ensures Names(arg, o) <==> Dashed(arg) && OptionText(arg) == if IsLong(arg) then o.longName else o.shortName
  {
    if Dashed(arg) {
      if IsLong(arg) {
        assert arg == [45, 45] + arg[2..];
        assert Names(arg, o) ==> arg == [45, 45] + o.longName;
        assert ([45, 45] + o.longName)[2..] == o.longName;
      } else {
        assert arg == [45] + arg[1..];
        assert ([45] + o.shortName)[1..] == o.shortName;
      }
    }
  }

  lemma {:induction false} RequiresIs(arg: Text, options: seq<CliOption>)
    requires Dashed(arg) && EQUALS !in arg
    ensures Requires(OptionText(arg), options, IsLong(arg)) <==> Needs(arg, options)
    decreases |options|
  {
    hide OptionText;
    hide IsLong;
    if options != [] {
      var o, rest := options[0], options[1..];
      NamesIs(arg, o);
      hide Names;
      RequiresIs(arg, rest);
      if Names(arg, o) {
        if Needs(arg, options) {
          var k :| 0 <= k < |options| && options[k].requiresArg && Names(arg, options[k])
                   && forall i :: 0 <= i < k ==> !Names(arg, options[i]);
          assert k == 0;
        }
      } else {
        if k :| 0 <= k < |rest| && rest[k].requiresArg && Names(arg, rest[k]) && forall i :: 0 <= i < k ==> !Names(arg, rest[i]) {
          assert options[k + 1] == rest[k];
          assert forall i :: 0 < i < k + 1 ==> options[i] == rest[i - 1];
        }
        if k :| 0 <= k < |options| && options[k].requiresArg && Names(arg, options[k]) && forall i :: 0 <= i < k ==> !Names(arg, options[i]) {
          assert options[k] == rest[k - 1];
          assert forall i :: 0 <= i < k - 1 ==> rest[i] == options[i + 1];
        }
      }
    }
  }

  lemma EqualsIn(arg: Text)
    requires Dashed(arg)
    ensures EQUALS in OptionText(arg) <==> 61 in arg
  {
    if 61 in arg {
      var i :| 0 <= i < |arg| && arg[i] == 61;
      assert OptionText(arg)[if IsLong(arg) then i - 2 else i - 1] == 61;
    }
  }

  /** An argument takes the next one exactly if it names an option that needs one. */
  lemma TakesNextIs(arg: Text, options: seq<CliOption>)
    ensures TakesNext(arg, options) <==> Needs(arg, options)
  {
    if Dashed(arg) {
      EqualsIn(arg);
      hide OptionText;
      if 61 !in arg {
        RequiresIs(arg, options);
      }
    } else if Needs(arg, options) {
      var k :| 0 <= k < |options| && options[k].requiresArg && Names(arg, options[k]);
      NamesIs(arg, options[k]);
    }
  }

  lemma KindIs(argv: seq<Text>, options: seq<CliOption>, i: nat)
    requires i < |argv|
    ensures BlockOf(argv, options, i) == Kind(argv, options, i)
  {
    TakesNextIs(argv[i], options);
    if i > 0 { TakesNextIs(argv[i - 1], options); }
    if Dashed(argv[i]) { EqualsIn(argv[i]); }
    hide TakesNext;
    hide Needs;
    hide OptionText;
  }

  function Rank(b: Block): nat {
    match b case Flags => 0 case Options => 1 case Positionals => 2
  }

  /** An order of the arguments: every one once, the program's name first, then flags, then options with
      their arguments, then positional arguments, each block in the old order. */
  ghost predicate Arranges(r: seq<nat>, argv: seq<Text>, options: seq<CliOption>) {
    && |r| == |argv| && (forall j :: 0 <= j < |r| ==> r[j] < |argv|) && (forall i :: 0 <= i < |argv| ==> i in r)
    && (r != [] ==> r[0] == 0)
    && (forall j, k :: 0 < j < k < |r| ==>
          var a, b := Rank(Kind(argv, options, r[j])), Rank(Kind(argv, options, r[k]));
          a < b || (a == b && r[j] < r[k]))
  }

  /** The new order is the one that the texts of the arguments ask for. */
  lemma OrderArranges(argv: seq<Text>, options: seq<CliOption>)
    requires argv != []
    ensures Arranges(Order(argv, options), argv, options)
  {
    hide BlockOf;
    hide Kind;
    hide Places;
    var r, n := Order(argv, options), |argv|;
    OrderIsPermutation(argv, options);
    OrderAt(argv, options, 0);
    forall j, k | 0 < j < k < n
      ensures var a, b := Rank(Kind(argv, options, r[j])), Rank(Kind(argv, options, r[k])); a < b || (a == b && r[j] < r[k])
    {
      OrderAt(argv, options, j);
      OrderAt(argv, options, k);
      KindIs(argv, options, r[j]);
      KindIs(argv, options, r[k]);
      OrderIncreases(argv, options, j, k);
    }
  }

  // ----- the passes -----

  /** `option_requires_arg` */
  method OptionRequiresArg(name: Text, options: seq<CliOption>, long: bool) returns (r: bool)
    ensures r == Requires(name, options, long)
  {
    assert options[0..] == options;
    for j := 0 to |options|
      invariant Requires(name, options, long) == Requires(name, options[j..], long)
    {
      assert options[j..][1..] == options[j + 1..];
      var matches := if long then name == options[j].longName else name == options[j].shortName;
      if matches {
        return options[j].requiresArg;
      }
    }
    return false;
  }

  /** The test of the first two passes on an argument that begins with a dash. */
  method Classify(arg: Text, options: seq<CliOption>) returns (hasEquals: bool, requiresArg: bool)
    requires Dashed(arg)
    ensures hasEquals == (EQUALS in OptionText(arg)) && requiresArg == TakesNext(arg, options)
    ensures requiresArg ==> !hasEquals
  {
    hide Requires;
    var isLong := IsLong(arg);
    hasEquals, requiresArg := EQUALS in OptionText(arg), false;
    if !hasEquals {
      requiresArg := OptionRequiresArg(OptionText(arg), options, isLong);
    }
  }

  /** What has been collected: the first entries of the new array. */
  ghost predicate Collected(sorted: array<Text>, idx: nat, argv: seq<Text>, places: seq<nat>)
    reads sorted
  {
    && idx == |places| <= sorted.Length == |argv|
    && forall j :: 0 <= j < idx ==> places[j] < |argv| && sorted[j] == argv[places[j]]
  }

  method Collect(sorted: array<Text>, idx: nat, argv: seq<Text>, i: nat, ghost places: seq<nat>) returns (next: nat)
    requires Collected(sorted, idx, argv, places) && idx < |argv| && i < |argv|
    modifies sorted
    ensures Collected(sorted, next, argv, places + [i])
  {
    sorted[idx] := argv[i];
    next := idx + 1;
  }

  lemma PlacesStep(argv: seq<Text>, options: seq<CliOption>, b: Block, i: nat)
    requires 1 <= i < |argv|
    ensures Places(argv, options, b, i + 1) == Places(argv, options, b, i) + (if BlockOf(argv, options, i) == b then [i] else [])
    ensures Places(argv, options, b, 1) == []
  {
    hide BlockOf;
  }

  /** There is room for what the passes collect. */
  lemma Room(argv: seq<Text>, options: seq<CliOption>, b: Block, i: nat)
    requires 1 <= i < |argv|
    ensures var n := |argv|;
            |Places(argv, options, Flags, n)| + |Places(argv, options, Options, n)| + |Places(argv, options, Positionals, n)| == n - 1
    ensures BlockOf(argv, options, i) == b ==> |Places(argv, options, b, i)| < |Places(argv, options, b, |argv|)|
  {
    hide BlockOf;
    PlacesCount(argv, options, |argv|);
    PlacesStep(argv, options, b, i);
    PlacesGrow(argv, options, b, i + 1, |argv|);
  }

  lemma More(a: seq<nat>, b: seq<nat>, x: nat)
    ensures a + (b + [x]) == a + b + [x] && b + [] == b && a + [] == a
  {
  }

  /** The first pass: options without arguments. */
  method CollectFlags(argv: seq<Text>, options: seq<CliOption>, sorted: array<Text>) returns (idx: nat)
    requires argv != [] && Collected(sorted, 1, argv, [0])
    modifies sorted
    ensures Collected(sorted, idx, argv, [0] + Places(argv, options, Flags, |argv|))
  {
    hide TakesNext;
    hide OptionText;
    hide Places;
    hide Collected;
    idx := 1;
    PlacesNone(argv, options, Flags);
    ghost var start: seq<nat> := [0];
    More(start, [], 0);
    for i := 1 to |argv|
      invariant Collected(sorted, idx, argv, start + Places(argv, options, Flags, i))
      invariant idx == 1 + |Places(argv, options, Flags, i)|
    {
      PlacesStep(argv, options, Flags, i);
      Room(argv, options, Flags, i);
      ghost var done := Places(argv, options, Flags, i);
      More(start, done, i);
      if Dashed(argv[i]) {
        var hasEquals, requiresArg := Classify(argv[i], options);
        if !hasEquals && !requiresArg {
          idx := Collect(sorted, idx, argv, i, start + done);
          CollectedLength(sorted, idx, argv, start + done + [i]);
        }
      }
    }
  }

  lemma PlacesNone(argv: seq<Text>, options: seq<CliOption>, b: Block)
    requires argv != []
    ensures Places(argv, options, b, 1) == []
  {
  }

  lemma CollectedLength(sorted: array<Text>, idx: nat, argv: seq<Text>, places: seq<nat>)
    requires Collected(sorted, idx, argv, places)
    ensures idx == |places|
  {
  }

  lemma OptionFacts(argv: seq<Text>, options: seq<CliOption>, i: nat)
    requires 1 <= i < |argv|
    ensures Dashed(argv[i]) ==> (BlockOf(argv, options, i) == Options <==> EQUALS in OptionText(argv[i]) || TakesNext(argv[i], options))
    ensures !Dashed(argv[i]) ==> (BlockOf(argv, options, i) == Options <==> IsArgument(argv, options, i))
    ensures i + 1 < |argv| ==> (IsArgument(argv, options, i + 1) <==> TakesNext(argv[i], options) && !Dashed(argv[i + 1]))
    ensures !Dashed(argv[i]) ==> !TakesNext(argv[i], options)
  {
  }

  /** One turn of the second pass: an option goes in, and its argument right behind it. */
  method TakeOption(argv: seq<Text>, options: seq<CliOption>, sorted: array<Text>, idx: nat, i: nat, ghost start: seq<nat>)
      returns (next: nat, k: nat)
    requires 1 <= i < |argv| && !IsArgument(argv, options, i)
    requires Collected(sorted, idx, argv, start + Places(argv, options, Options, i))
    requires |start| + |Places(argv, options, Options, |argv|)| <= |argv|
    modifies sorted
    ensures i < k <= |argv| && (k < |argv| ==> !IsArgument(argv, options, k))
    ensures Collected(sorted, next, argv, start + Places(argv, options, Options, k))
  {
    hide TakesNext;
    hide OptionText;
    hide Places;
    hide Collected;
    hide BlockOf;
    hide IsArgument;
    next, k := idx, i + 1;
    ghost var done := Places(argv, options, Options, i);
    CollectedLength(sorted, idx, argv, start + done);
    OptionFacts(argv, options, i);
    PlacesStep(argv, options, Options, i);
    Room(argv, options, Options, i);
    More(start, done, i);
    if !Dashed(argv[i]) {
      return;
    }
    var hasEquals, requiresArg := Classify(argv[i], options);
    if hasEquals || requiresArg {
      next := Collect(sorted, idx, argv, i, start + done);
      CollectedLength(sorted, next, argv, start + done + [i]);
    }
    if requiresArg && i + 1 < |argv| && !Dashed(argv[i + 1]) {
      OptionFacts(argv, options, i + 1);
      PlacesStep(argv, options, Options, i + 1);
      Room(argv, options, Options, i + 1);
      More(start, done + [i], i + 1);
      next := Collect(sorted, next, argv, i + 1, start + done + [i]);
      k := i + 2;
    }
  }

  /** The second pass: options with their arguments. */
  method CollectOptions(argv: seq<Text>, options: seq<CliOption>, sorted: array<Text>, from: nat, ghost start: seq<nat>)
      returns (idx: nat)
    requires argv != [] && Collected(sorted, from, argv, start)
    requires start == [0] + Places(argv, options, Flags, |argv|)
    modifies sorted
    ensures Collected(sorted, idx, argv, start + Places(argv, options, Options, |argv|))
  {
    hide Places;
    hide Collected;
    hide BlockOf;
    idx := from;
    PlacesNone(argv, options, Options);
    PlacesCount(argv, options, |argv|);
    More(start, [], 0);
    var i := 1;
    while i < |argv|
      invariant 1 <= i <= |argv|
      invariant Collected(sorted, idx, argv, start + Places(argv, options, Options, i))
      invariant i < |argv| ==> !IsArgument(argv, options, i)
    {
      idx, i := TakeOption(argv, options, sorted, idx, i, start);
    }
  }

  lemma NotTaking(arg: Text, options: seq<CliOption>)
    requires !Dashed(arg)
    ensures !TakesNext(arg, options)
  {
  }

  /** The third pass: arguments that belong to no option. */
  method CollectPositionals(argv: seq<Text>, options: seq<CliOption>, sorted: array<Text>, from: nat, ghost start: seq<nat>)
      returns (idx: nat)
    requires argv != [] && Collected(sorted, from, argv, start)
    requires start == [0] + Places(argv, options, Flags, |argv|) + Places(argv, options, Options, |argv|)
    modifies sorted
    ensures Collected(sorted, idx, argv, start + Places(argv, options, Positionals, |argv|))
  {
    hide TakesNext;
    hide OptionText;
    hide Places;
    hide Collected;
    idx := from;
    CollectedLength(sorted, from, argv, start);
    PlacesNone(argv, options, Positionals);
    More(start, [], 0);
    for i := 1 to |argv|
      invariant Collected(sorted, idx, argv, start + Places(argv, options, Positionals, i))
      invariant idx == |start| + |Places(argv, options, Positionals, i)|
    {
      PlacesStep(argv, options, Positionals, i);
      Room(argv, options, Positionals, i);
      ghost var done := Places(argv, options, Positionals, i);
      More(start, done, i);
      if !Dashed(argv[i]) {
        if !Dashed(argv[i - 1]) {
          NotTaking(argv[i - 1], options);
        }
        if i > 1 && Dashed(argv[i - 1]) {
          var hasEquals, requiresArg := Classify(argv[i - 1], options);
          if !hasEquals && requiresArg {
            continue;
          }
        }
        idx := Collect(sorted, idx, argv, i, start + done);
        CollectedLength(sorted, idx, argv, start + done + [i]);
      }
    }
  }

  /** The reordering of `cmd_parse`. */
  method Reorder(argv: array<Text>, options: seq<CliOption>)
    requires argv.Length > 0
    modifies argv
    ensures Arranges(Order(old(argv[..]), options), old(argv[..]), options)
    ensures forall j :: 0 <= j < argv.Length ==>
              Order(old(argv[..]), options)[j] < argv.Length && argv[j] == old(argv[..])[Order(old(argv[..]), options)[j]]
  {
    hide Places;
    hide Arranges;
    ghost var was := argv[..];
    var sorted := new Text[argv.Length](_ => []);
    sorted[0] := argv[0];
    var idx := CollectFlags(argv[..], options, sorted);
    idx := CollectOptions(argv[..], options, sorted, idx, [0] + Places(was, options, Flags, |was|));
    idx := CollectPositionals(argv[..], options, sorted, idx, [0] + Places(was, options, Flags, |was|) + Places(was, options, Options, |was|));
    OrderAt(was, options, 0);
    OrderArranges(was, options);
    ghost var r := Order(was, options);
    assert Collected(sorted, idx, was, r);
    hide Order;
    for i := 0 to idx
      invariant Collected(sorted, idx, was, r)
      invariant idx == argv.Length == sorted.Length
      invariant forall j :: 0 <= j < i ==> argv[j] == sorted[j]
    {
      argv[i] := sorted[i];
    }
  }
}
