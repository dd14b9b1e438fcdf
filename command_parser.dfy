/** The diary program's command reader (`a1-diary/command_parser.py`): the
    tokens of one input line become a command letter, positional arguments,
    a map from option names to their values and the order in which the
    options appeared. Splitting the raw line into tokens (shell-style
    quoting) happens before this module; it receives the token list. */
module CommandParser {
  import opened Options
  import opened PyText

  /** A token that names an option: it starts with `-`. */
  predicate IsOption(t: string) {
    |t| > 0 && t[0] == '-'
  }

  /** The token at `i` is taken as the value of the option just before it. */
  predicate IsValueAt(s: seq<string>, i: int)
    requires 0 <= i < |s|
  {
    !IsOption(s[i]) && i > 0 && IsOption(s[i - 1])
  }

  /** The token at `i` is a positional argument: neither an option nor an option's value. */
  predicate IsArgAt(s: seq<string>, i: int)
    requires 0 <= i < |s|
  {
    !IsOption(s[i]) && !(i > 0 && IsOption(s[i - 1]))
  }

  datatype Command = Command(
    command: string,
    args: seq<string>,
    options: map<string, Option<string>>,
    optionsOrder: seq<string>)

  /** The option tokens of `s`, in order and with repetitions. */
  function OptionTokens(s: seq<string>): (r: seq<string>)
    ensures |r| <= |s|
    ensures forall t :: t in r <==> t in s && IsOption(t)
  {
    if s == [] then []
    else
      var p := s[..|s| - 1];
      assert s == p + [s[|s| - 1]];
      OptionTokens(p) + (if IsOption(s[|s| - 1]) then [s[|s| - 1]] else [])
  }

  /** The positional arguments of `s`, in order. */
  function ArgTokens(s: seq<string>): (r: seq<string>)
    ensures |r| <= |s|
  {
    if s == [] then []
    else
      var p := s[..|s| - 1];
      assert s == p + [s[|s| - 1]];
      ArgTokens(p) + (if IsArgAt(s, |s| - 1) then [s[|s| - 1]] else [])
  }

  /** Positional arguments are tokens of `s` that are not options. */
  lemma {:induction false} ArgTokensMembers(s: seq<string>, t: string)
    requires t in ArgTokens(s)
    ensures t in s && !IsOption(t)
  {
    var p := s[..|s| - 1];
    assert s == p + [s[|s| - 1]];
    if t in ArgTokens(p) {
      ArgTokensMembers(p, t);
    }
  }

  /** The tokens of `s` that are taken as option values, in order. */
  function ValueTokens(s: seq<string>): (r: seq<string>)
    ensures |r| <= |s|
  {
    if s == [] then []
    else ValueTokens(s[..|s| - 1]) + (if IsValueAt(s, |s| - 1) then [s[|s| - 1]] else [])
  }

  /** The position of the last occurrence of `k` in `s`. */
  function LastIndex(s: seq<string>, k: string): (j: nat)
    requires k in s
    ensures j < |s| && s[j] == k
  {
    if s[|s| - 1] == k then |s| - 1
    else
      assert k in s[..|s| - 1] by {
        var i :| 0 <= i < |s| && s[i] == k;
        assert s[..|s| - 1][i] == k;
      }
      LastIndex(s[..|s| - 1], k)
  }

  /** No occurrence of `k` comes after its last index. */
  lemma {:induction false} LastIndexIsLast(s: seq<string>, k: string, i: int)
    requires k in s && LastIndex(s, k) < i < |s|
    ensures s[i] != k
  {
    if s[|s| - 1] != k {
      var p := s[..|s| - 1];
      assert k in p by {
        var i :| 0 <= i < |s| && s[i] == k;
        assert p[i] == k;
      }
      if i < |s| - 1 {
        LastIndexIsLast(p, k, i);
        assert p[i] == s[i];
      }
    }
  }

  /** The value an option ends up with: the token right after its last
      occurrence, when that token is not itself an option. */
  function OptionValue(s: seq<string>, k: string): Option<string>
    requires k in s
  {
    ValueAfter(s, LastIndex(s, k))
  }

  /** The token after position `j`, when there is one and it is no option. */
  function ValueAfter(s: seq<string>, j: nat): Option<string>
    requires j < |s|
  {
    if j + 1 < |s| && !IsOption(s[j + 1]) then Some(s[j + 1]) else None
  }

  /** The options map of `s`: one key per distinct option name. */
  function OptionMap(s: seq<string>): (m: map<string, Option<string>>)
    ensures m.Keys == set t | t in OptionTokens(s)
  {
    map k | k in OptionTokens(s) :: OptionValue(s, k)
  }

  lemma OptionTokensSnoc(s: seq<string>, t: string)
    ensures OptionTokens(s + [t]) == OptionTokens(s) + (if IsOption(t) then [t] else [])
    ensures ArgTokens(s + [t]) == ArgTokens(s) + (if IsArgAt(s + [t], |s|) then [t] else [])
    ensures ValueTokens(s + [t]) == ValueTokens(s) + (if IsValueAt(s + [t], |s|) then [t] else [])
  {
    assert (s + [t])[..|s|] == s;
  }

  lemma LastIndexSnoc(s: seq<string>, t: string, k: string)
    requires k in s && k != t
    ensures LastIndex(s + [t], k) == LastIndex(s, k)
  {
    assert (s + [t])[..|s|] == s;
  }

  /** How one more token changes the options map. */
  lemma OptionMapSnoc(s: seq<string>, t: string)
    ensures OptionMap(s + [t]) == AfterToken(OptionMap(s), s, t)
  {
    var m', e := OptionMap(s + [t]), AfterToken(OptionMap(s), s, t);
    OptionMapKeysSnoc(s, t);
    forall k | k in m'
      ensures m'[k] == e[k]
    {
      OptionMapValueSnoc(s, t, k);
    }
  }

  lemma OptionMapKeysSnoc(s: seq<string>, t: string)
    ensures OptionMap(s + [t]).Keys == AfterToken(OptionMap(s), s, t).Keys
  {
    OptionTokensSnoc(s, t);
    if !IsOption(t) && s != [] && IsOption(s[|s| - 1]) {
      assert s[|s| - 1] in OptionTokens(s);
    }
  }

  /** The value of one option once `t` has been scanned. */
  lemma OptionMapValueSnoc(s: seq<string>, t: string, k: string)
    requires k in OptionTokens(s + [t])
    ensures k in AfterToken(OptionMap(s), s, t)
    ensures OptionValue(s + [t], k) == AfterToken(OptionMap(s), s, t)[k]
  {
    var s' := s + [t];
    var m := OptionMap(s);
    OptionMapKeysSnoc(s, t);
    OptionTokensSnoc(s, t);
    if k == t {
      assert LastIndex(s', t) == |s|;
      assert OptionValue(s', k) == None == AfterToken(m, s, t)[k];
    } else {
      OptionValueSnoc(s, t, k);
      assert k in OptionTokens(s) && IsOption(k);
      assert m[k] == OptionValue(s, k);
      var j := LastIndex(s, k);
      if IsOption(t) {
        assert AfterToken(m, s, t)[k] == m[k];
      } else if k == s[|s| - 1] {
        assert j == |s| - 1;
        assert AfterToken(m, s, t)[k] == Some(t);
      } else {
        assert j != |s| - 1;
        assert AfterToken(m, s, t)[k] == m[k];
      }
    }
  }

  lemma OptionValueSnoc(s: seq<string>, t: string, k: string)
    requires k in s && k != t
    ensures OptionValue(s + [t], k) ==
      if LastIndex(s, k) == |s| - 1 then (if IsOption(t) then None else Some(t)) else OptionValue(s, k)
    ensures LastIndex(s, k) == |s| - 1 ==> OptionValue(s, k) == None
  {
    LastIndexSnoc(s, t, k);
    ValueAfterSnoc(s, t, LastIndex(s, k));
  }

  lemma ValueAfterSnoc(s: seq<string>, t: string, j: nat)
    requires j < |s|
    ensures ValueAfter(s + [t], j) ==
      if j == |s| - 1 then (if IsOption(t) then None else Some(t)) else ValueAfter(s, j)
    ensures j == |s| - 1 ==> ValueAfter(s, j) == None
  {
    assert (s + [t])[j + 1] == if j + 1 < |s| then s[j + 1] else t;
  }

  /** The options map once token `t` has been scanned after the tokens `s`. */
  function AfterToken(m: map<string, Option<string>>, s: seq<string>, t: string): map<string, Option<string>> {
    if IsOption(t) then m[t := None]
    else if s != [] && IsOption(s[|s| - 1]) then m[s[|s| - 1] := Some(t)]
    else m
  }

  /** `parse_command` from the token list on: `None` for an empty list,
      otherwise the upper-cased first token as the command and the remaining
      tokens sorted into arguments, options and the order of options. */
  method ParseCommand(parts: seq<string>) returns (r: Option<Command>)
    ensures r.None? <==> parts == []
    ensures r.Some? ==> r.value.command == Upper(parts[0])
    ensures r.Some? ==> r.value.optionsOrder == OptionTokens(parts[1..])
    ensures r.Some? ==> r.value.options == OptionMap(parts[1..])
    ensures r.Some? ==> r.value.args == ArgTokens(parts[1..])
  {
    if parts == [] {
      return None;
    }
    var command := Upper(parts[0]);
    var args: seq<string> := [];
    var options: map<string, Option<string>> := map[];
    var optionsOrder: seq<string> := [];
    var currentOption: Option<string> := None;
    var rest := parts[1..];
    for i := 0 to |rest|
      invariant args == ArgTokens(rest[..i])
      invariant optionsOrder == OptionTokens(rest[..i])
      invariant options == OptionMap(rest[..i])
      invariant currentOption == Pending(rest[..i])
    {
      assert rest[..i + 1] == rest[..i] + [rest[i]];
      args, options, optionsOrder, currentOption :=
        ScanToken(rest[..i], rest[i], args, options, optionsOrder, currentOption);
    }
    assert rest[..|rest|] == rest;
    return Some(Command(command, args, options, optionsOrder));
  }

  /** The option waiting for a value after the tokens `s`: the last token, if it is an option. */
  function Pending(s: seq<string>): Option<string> {
    if s != [] && IsOption(s[|s| - 1]) then Some(s[|s| - 1]) else None
  }

  /** One pass of the token loop: the parser's state after the tokens `s`
      becomes its state after `s + [t]`. */
  method ScanToken(ghost s: seq<string>, t: string, args: seq<string>, options: map<string, Option<string>>,
                   optionsOrder: seq<string>, currentOption: Option<string>)
    returns (args': seq<string>, options': map<string, Option<string>>,
             optionsOrder': seq<string>, currentOption': Option<string>)
    requires args == ArgTokens(s) && optionsOrder == OptionTokens(s) && options == OptionMap(s)
    requires currentOption == Pending(s)
    ensures args' == ArgTokens(s + [t]) && optionsOrder' == OptionTokens(s + [t])
    ensures options' == OptionMap(s + [t]) && currentOption' == Pending(s + [t])
  {
    OptionTokensSnoc(s, t);
    OptionMapSnoc(s, t);
    args', options', optionsOrder', currentOption' := args, options, optionsOrder, None;
    if IsOption(t) {
      currentOption' := Some(t);
      options' := options[t := None];
      optionsOrder' := optionsOrder + [t];
    } else if currentOption.Some? {
      options' := options[currentOption.value := Some(t)];
    } else {
      args' := args + [t];
    }
  }

  /** Every token is exactly one of: an option, an option's value, a positional argument. */
  lemma {:induction false} TokensPartition(s: seq<string>)
    ensures |OptionTokens(s)| + |ValueTokens(s)| + |ArgTokens(s)| == |s|
  {
    if s != [] {
      var p := s[..|s| - 1];
      assert s == p + [s[|s| - 1]];
      OptionTokensSnoc(p, s[|s| - 1]);
      TokensPartition(p);
    }
  }

  /** A repeated option is listed in the order as often as it occurs among the tokens. */
  lemma {:induction false} OptionTokensCount(s: seq<string>, k: string)
    requires IsOption(k)
    ensures multiset(OptionTokens(s))[k] == multiset(s)[k]
  {
    if s != [] {
      var p := s[..|s| - 1];
      assert s == p + [s[|s| - 1]];
      OptionTokensCount(p, k);
    }
  }

  /** The map has one key per distinct option name, so never more keys than the order has entries. */
  lemma {:induction false} OptionMapSize(s: seq<string>)
    ensures |OptionMap(s)| <= |OptionTokens(s)|
  {
    DistinctElements(OptionTokens(s));
  }

  lemma {:induction false} DistinctElements(q: seq<string>)
    ensures |set t | t in q| <= |q|
  {
    if q != [] {
      var p := q[..|q| - 1];
      assert q == p + [q[|q| - 1]];
      DistinctElements(p);
      assert (set t | t in q) == (set t | t in p) + {q[|q| - 1]};
    }
  }
}
