/** The command-line tokenizer shared by the scripts: options become keys of
    a map, bare arguments are numbered. */
module Args {
  import opened PyStr

  /** A value in the argument map: Python's `True` for a bare option, or
      text. */
  datatype ArgValue = Flag | Text(text: string)

  /** Whether an argument is an option (starts with `-`). */
  predicate IsOption(arg: string) {
    StartsWith(arg, "-")
  }

  /** The key and value an option argument contributes: after `--`, the key
      runs up to the first `=` and the value up to the second; after a
      single `-`, the whole remainder is the key. */
  function OptionEntry(arg: string): (string, ArgValue)
    requires IsOption(arg)
  {
    if StartsWith(arg, "--") then
      var parts := Split(arg, '=');
      SplitHead(arg, '=');
      assert arg[0] == '-' && arg[1] == '-';
      (parts[0][2..], if |parts| > 1 then Text(parts[1]) else Flag)
    else
      (arg[1..], Flag)
  }

  /** How many of `args` are bare (non-option) arguments. */
  function PositionalCount(args: seq<string>): nat {
    if |args| == 0 then 0
    else PositionalCount(args[..|args| - 1]) + (if IsOption(args[|args| - 1]) then 0 else 1)
  }

  /** The key argument `i` is stored under: its option key, or the number of
      bare arguments before it. */
  function Key(args: seq<string>, i: nat): string
    requires i < |args|
  {
    if IsOption(args[i]) then OptionEntry(args[i]).0 else NatToDecimal(PositionalCount(args[..i]))
  }

  /** The value argument `i` stores. */
  function Value(args: seq<string>, i: nat): ArgValue
    requires i < |args|
  {
    if IsOption(args[i]) then OptionEntry(args[i]).1 else Text(args[i])
  }

  /** The key of every argument, in order. */
  function Keys(args: seq<string>): (ks: seq<string>)
    ensures |ks| == |args|
  {
    seq(|args|, i requires 0 <= i < |args| => Key(args, i))
  }

  /** The value of every argument, in order. */
  function Values(args: seq<string>): (vs: seq<ArgValue>)
    ensures |vs| == |args|
  {
    seq(|args|, i requires 0 <= i < |args| => Value(args, i))
  }

  /** `res` holds exactly the first `n` keys. */
  ghost predicate KeysOf(keys: seq<string>, n: nat, res: map<string, ArgValue>)
    requires n <= |keys|
  {
    forall k :: k in res <==> exists i :: 0 <= i < n && keys[i] == k
  }

  /** Among the first `n` entries, the last one with a given key set its
      value. */
  ghost predicate LastValues(keys: seq<string>, vals: seq<ArgValue>, n: nat, res: map<string, ArgValue>)
    requires n <= |keys| == |vals|
  {
    forall i :: (0 <= i < n && (forall j :: i < j < n ==> keys[j] != keys[i]))
                ==> keys[i] in res && res[keys[i]] == vals[i]
  }

  /** Python's `parse_args` over `sys.argv[1:]`. The map holds exactly the
      keys the arguments name, each with the value of the last argument
      naming it. */
  method ParseArgs(args: seq<string>) returns (res: map<string, ArgValue>)
    ensures |args| == 0 ==> res == map[]
    ensures forall k :: k in res <==> exists i :: 0 <= i < |args| && Key(args, i) == k
    ensures forall i :: 0 <= i < |args| && (forall j :: i < j < |args| ==> Key(args, j) != Key(args, i))
                        ==> Key(args, i) in res && res[Key(args, i)] == Value(args, i)
  {
    if |args| == 0 {
      return map[];
    }
    ghost var keys, vals := Keys(args), Values(args);
    res := map[];
    var argIdx := 0;
    var n := 0;
    while n < |args|
      invariant 0 <= n <= |args|
      invariant argIdx == PositionalCount(args[..n])
      invariant KeysOf(keys, n, res) && LastValues(keys, vals, n, res)
    {
      assert args[..n + 1][..n] == args[..n];
      var key, value := NextEntry(args[n], argIdx);
      if !IsOption(args[n]) {
        argIdx := argIdx + 1;
      }
      KeysStep(keys, n, res, value);
      ValuesStep(keys, vals, n, res);
      res := res[key := value];
      n := n + 1;
    }
    assert args[..n] == args;
    ParsedTable(args, res);
  }

  /** The key and value one argument contributes, `argIdx` being the
      number of bare arguments before it. */
  method NextEntry(arg: string, argIdx: nat) returns (key: string, value: ArgValue)
    ensures IsOption(arg) ==> (key, value) == OptionEntry(arg)
    ensures !IsOption(arg) ==> key == NatToDecimal(argIdx) && value == Text(arg)
  {
    if StartsWith(arg, "--") {
      var arr := Split(arg, '=');
      SplitHead(arg, '=');
      key := arr[0][2..];
      value := if |arr| > 1 then Text(arr[1]) else Flag;
    } else if StartsWith(arg, "-") {
      key := arg[1..];
      value := Flag;
    } else {
      key := NatToDecimal(argIdx);
      value := Text(arg);
    }
  }

  /** The loop's tables over all arguments, restated per argument. */
  lemma ParsedTable(args: seq<string>, res: map<string, ArgValue>)
    requires KeysOf(Keys(args), |args|, res) && LastValues(Keys(args), Values(args), |args|, res)
    ensures forall k :: k in res <==> exists i :: 0 <= i < |args| && Key(args, i) == k
    ensures forall i :: 0 <= i < |args| && (forall j :: i < j < |args| ==> Key(args, j) != Key(args, i))
                        ==> Key(args, i) in res && res[Key(args, i)] == Value(args, i)
  {
    assert forall i :: 0 <= i < |args| ==> Keys(args)[i] == Key(args, i) && Values(args)[i] == Value(args, i);
  }

  /** Storing the next key keeps the map's keys those read so far. */
  lemma KeysStep(keys: seq<string>, n: nat, res: map<string, ArgValue>, value: ArgValue)
    requires n < |keys| && KeysOf(keys, n, res)
    ensures KeysOf(keys, n + 1, res[keys[n] := value])
  {
    var res' := res[keys[n] := value];
    forall k
      ensures k in res' <==> exists i :: 0 <= i < n + 1 && keys[i] == k
    {
      assert k == keys[n] ==> keys[n] == k;
    }
  }

  /** Storing the next entry keeps every key at its last value. */
  lemma ValuesStep(keys: seq<string>, vals: seq<ArgValue>, n: nat, res: map<string, ArgValue>)
    requires n < |keys| == |vals| && LastValues(keys, vals, n, res)
    ensures LastValues(keys, vals, n + 1, res[keys[n] := vals[n]])
  {
    forall i | 0 <= i < n && (forall j :: i < j < n + 1 ==> keys[j] != keys[i])
      ensures keys[i] in res[keys[n] := vals[n]] && res[keys[n] := vals[n]][keys[i]] == vals[i]
    {
      EarlierValueKept(keys, vals, n, res, i);
    }
  }

  /** An earlier key that the next entry does not name keeps its value. */
  lemma EarlierValueKept(keys: seq<string>, vals: seq<ArgValue>, n: nat, res: map<string, ArgValue>, i: nat)
    requires n < |keys| == |vals| && LastValues(keys, vals, n, res)
    requires i < n && (forall j :: i < j < n + 1 ==> keys[j] != keys[i])
    ensures keys[i] in res[keys[n] := vals[n]] && res[keys[n] := vals[n]][keys[i]] == vals[i]
  {
    assert keys[i] != keys[n];
  }

  /** `--key=value=more`: the key is the text before the first `=` and the
      value the text between the first and the second. */
  lemma DoubleDashWithValue(k: string, v: string, rest: string)
    requires '=' !in k && '=' !in v
    requires rest == [] || rest[0] == '='
    ensures OptionEntry("--" + k + "=" + v + rest) == (k, Text(v))
  {
    var head := "--" + k;
    var tail := v + rest;
    var arg := head + "=" + tail;
    assert arg == "--" + k + "=" + v + rest;
    assert '=' !in head;
    assert arg[..|head|] == head;
    assert arg[|head| + 1..] == tail;
    var parts := Split(arg, '=');
    SplitAt(arg, '=', |head|);
    assert parts == [head] + Split(tail, '=');
    var pieces := Split(tail, '=');
    assert pieces[0] == v by {
      if rest == [] {
        assert tail == v;
        SplitNone(tail, '=');
      } else {
        assert tail[..|v|] == v;
        SplitAt(tail, '=', |v|);
      }
    }
    assert parts[0][2..] == k;
    assert parts[1] == v;
    assert arg[..2] == "--";
  }

  /** `--key` with no `=` is a flag. */
  lemma DoubleDashFlag(k: string)
    requires '=' !in k
    ensures OptionEntry("--" + k) == (k, Flag)
  {
    var arg := "--" + k;
    assert '=' !in arg;
    SplitNone(arg, '=');
  }

  /** `-rest`: the whole remainder is the key, `=` included, and the value
      is a flag. */
  lemma SingleDashKey(rest: string)
    requires !StartsWith(rest, "-")
    ensures OptionEntry("-" + rest) == (rest, Flag)
  {
    var arg := "-" + rest;
    if |rest| > 0 {
      assert rest[..1] == [rest[0]];
      assert arg[..2] == ['-', rest[0]];
    }
  }

  /** The `--` test comes first: a key from a `--` argument never keeps the
      second dash, so `--x` gives `x`, not `-x`. */
  lemma DoubleDashDropsBothDashes(k: string)
    requires '=' !in k
    ensures OptionEntry("--" + k).0 == k
    ensures OptionEntry("--" + k).0 != ("--" + k)[1..]
  {
    DoubleDashFlag(k);
    assert |("--" + k)[1..]| == |k| + 1;
  }

  /** Bare arguments are numbered by how many bare arguments precede them;
      options in between do not advance the count, and no two bare
      arguments share a number. */
  lemma PositionalKeysDistinct(args: seq<string>, i: nat, j: nat)
    requires i < j < |args|
    requires !IsOption(args[i]) && !IsOption(args[j])
    ensures Key(args, i) != Key(args, j)
  {
    assert PositionalCount(args[..i + 1]) == PositionalCount(args[..i]) + 1 by {
      assert args[..i + 1][..i] == args[..i];
    }
    PositionalCountMonotone(args, i + 1, j);
    DecimalInjective(PositionalCount(args[..i]), PositionalCount(args[..j]));
  }

  lemma {:induction false} PositionalCountMonotone(args: seq<string>, i: nat, j: nat)
    requires i <= j <= |args|
    ensures PositionalCount(args[..i]) <= PositionalCount(args[..j])
    decreases j - i
  {
    if i < j {
      PositionalCountMonotone(args, i, j - 1);
      assert args[..j][..j - 1] == args[..j - 1];
    }
  }
}
