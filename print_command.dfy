/** The diary program's print command (`command_p` in `a1-diary/a1.py`):
    each option of a parsed `P` command, in the order given, adds lines
    about the open notebook; the first option that cannot be served ends
    the output with an "ERROR" line. */
module DiaryPrint {
  import opened Options
  import opened PyText
  import opened CommandParser
  import opened NotebookStore

  /** What the print command reads of a notebook. */
  datatype Profile = Profile(username: string, password: string, bio: string, entries: seq<string>)

  /** The entries of a diary list, in list order. */
  function Entries(ds: seq<Diary>): (r: seq<string>)
    reads ds
    ensures |r| == |ds|
    ensures forall i :: 0 <= i < |ds| ==> r[i] == ds[i].entry
  {
    if ds == [] then [] else Entries(ds[..|ds| - 1]) + [ds[|ds| - 1].entry]
  }

  function ProfileOf(nb: Notebook): Profile
    reads nb, nb.diaries
  {
    Profile(nb.username, nb.password, nb.bio, Entries(nb.diaries))
  }

  const ValidOptions: seq<string> := ["-usr", "-pwd", "-bio", "-diaries", "-diary", "-all"]

  /** The `-diaries` listing: one line "i: entry" per diary, numbered from 0. */
  function DiaryLines(entries: seq<string>): seq<string> {
    if entries == [] then []
    else DiaryLines(entries[..|entries| - 1]) + [NatToString(|entries| - 1) + ": " + entries[|entries| - 1]]
  }

  lemma {:induction false} DiaryLinesAt(entries: seq<string>, i: nat)
    requires i < |entries|
    ensures |DiaryLines(entries)| == |entries|
    ensures DiaryLines(entries)[i] == NatToString(i) + ": " + entries[i]
  {
    var n := |entries| - 1;
    DiaryLinesLength(entries[..n]);
    if i < n {
      DiaryLinesAt(entries[..n], i);
    }
  }

  lemma {:induction false} DiaryLinesLength(entries: seq<string>)
    ensures |DiaryLines(entries)| == |entries|
  {
    if entries != [] {
      DiaryLinesLength(entries[..|entries| - 1]);
    }
  }

  /** `parsed['options'].get(opt)`: an option's value, None when it has none. */
  function Lookup(options: map<string, Option<string>>, opt: string): Option<string> {
    if opt in options then options[opt] else None
  }

  /** The lines one option adds, or None when it stops the command with an error. */
  function OptionLines(opt: string, value: Option<string>, p: Profile): Option<seq<string>> {
    if opt == "-usr" then Some([p.username])
    else if opt == "-pwd" then Some([p.password])
    else if opt == "-bio" then Some([p.bio])
    else if opt == "-diaries" then Some(DiaryLines(p.entries))
    else if opt == "-diary" then
      match value
      case None => None
      case Some(v) =>
        match ParseInt(v)
        case None => None
        case Some(i) =>
          match PyIndex(i, |p.entries|)
          case None => None
          case Some(k) => Some([p.entries[k]])
    else if opt == "-all" then Some([p.username, p.password, p.bio] + DiaryLines(p.entries))
    else None
  }

  /** Only the six known options are served; any other one fails. */
  lemma UnknownOptionFails(opt: string, value: Option<string>, p: Profile)
    ensures opt !in ValidOptions ==> OptionLines(opt, value, p).None?
    ensures OptionLines(opt, value, p).Some? ==> opt in ValidOptions
  {
  }

  /** The output lines for the options in `order`: what each option adds, up
      to and including a final "ERROR" for the first option that fails. */
  function PrintLines(order: seq<string>, options: map<string, Option<string>>, p: Profile): seq<string> {
    if order == [] then []
    else
      match OptionLines(order[0], Lookup(options, order[0]), p)
      case None => ["ERROR"]
      case Some(ls) => ls + PrintLines(order[1..], options, p)
  }

  /** The command's result text: the lines joined by newlines, "ERROR" when there are none. */
  function PrintOutput(lines: seq<string>): string {
    if lines == [] then "ERROR" else Join(lines, '\n')
  }

  /** `command_p(parsed, notebook, path)`. */
  method CommandP(parsed: Command, notebook: Notebook?, path: Option<string>) returns (out: string)
    ensures notebook == null || path.None? ==> out == "ERROR"
    ensures parsed.optionsOrder == [] ==> out == "ERROR"
    ensures notebook != null && path.Some? ==>
      out == PrintOutput(PrintLines(parsed.optionsOrder, parsed.options, ProfileOf(notebook)))
  {
    if notebook == null || path.None? {
      return "ERROR";
    }
    var outputLines := CollectLines(parsed.optionsOrder, parsed.options, notebook);
    out := if outputLines != [] then Join(outputLines, '\n') else "ERROR";
  }

  /** The option loop of `command_p`: serves the options in order and stops
      with an "ERROR" line at the first one that fails. */
  method CollectLines(order: seq<string>, options: map<string, Option<string>>, notebook: Notebook)
    returns (outputLines: seq<string>)
    ensures outputLines == PrintLines(order, options, ProfileOf(notebook))
  {
    ghost var p := ProfileOf(notebook);
    outputLines := [];
    var errorFlag := false;
    var i := 0;
    while i < |order|
      invariant 0 <= i <= |order|
      invariant outputLines + PrintLines(order[i..], options, p) == PrintLines(order, options, p)
      invariant !errorFlag
    {
      var opt := order[i];
      var added := ServeOption(opt, Lookup(options, opt), notebook);
      PrintLinesAt(order, i, options, p);
      if added.None? {
        assert PrintLines(order[i..], options, p) == ["ERROR"];
        errorFlag := true;
        break;
      }
      AppendAssoc(outputLines, added.value, PrintLines(order[i + 1..], options, p));
      outputLines := outputLines + added.value;
      i := i + 1;
    }
    if errorFlag {
      outputLines := outputLines + ["ERROR"];
    } else {
      assert order[i..] == [];
    }
  }

  lemma AppendAssoc(a: seq<string>, b: seq<string>, c: seq<string>)
    ensures (a + b) + c == a + (b + c)
  {
  }

  lemma PrintLinesAt(order: seq<string>, i: nat, options: map<string, Option<string>>, p: Profile)
    requires i < |order|
    ensures PrintLines(order[i..], options, p) ==
      match OptionLines(order[i], Lookup(options, order[i]), p)
      case None => ["ERROR"]
      case Some(ls) => ls + PrintLines(order[i + 1..], options, p)
  {
    assert order[i..][0] == order[i] && order[i..][1..] == order[i + 1..];
  }

  /** One pass of the option loop: the lines option `opt` adds, or None when it fails. */
  method ServeOption(opt: string, value: Option<string>, notebook: Notebook) returns (added: Option<seq<string>>)
    ensures added == OptionLines(opt, value, ProfileOf(notebook))
  {
    if opt == "-usr" {
      added := Some([notebook.username]);
    } else if opt == "-pwd" {
      added := Some([notebook.password]);
    } else if opt == "-bio" {
      added := Some([notebook.bio]);
    } else if opt == "-diaries" {
      var lines := AppendDiaryLines([], notebook.diaries);
      assert lines == DiaryLines(Entries(notebook.diaries));
      added := Some(lines);
    } else if opt == "-diary" {
      if value.None? {
        return None;
      }
      var idx := ParseInt(value.value);
      if idx.None? {
        return None;
      }
      var k := PyIndex(idx.value, |notebook.diaries|);
      if k.None? {
        return None;
      }
      assert Entries(notebook.diaries)[k.value] == notebook.diaries[k.value].entry;
      added := Some([notebook.diaries[k.value].entry]);
    } else if opt == "-all" {
      var lines := [notebook.username, notebook.password, notebook.bio];
      lines := AppendDiaryLines(lines, notebook.diaries);
      added := Some(lines);
    } else {
      added := None;
    }
  }

  /** The `-diaries` loop: appends "i: entry" for every diary in order. */
  method AppendDiaryLines(lines: seq<string>, diaries: seq<Diary>) returns (r: seq<string>)
    ensures r == lines + DiaryLines(Entries(diaries))
  {
    r := lines;
    for j := 0 to |diaries|
      invariant r == lines + DiaryLines(Entries(diaries)[..j])
    {
      assert Entries(diaries)[..j + 1][..j] == Entries(diaries)[..j];
      r := r + [NatToString(j) + ": " + diaries[j].entry];
    }
    assert Entries(diaries)[..|diaries|] == Entries(diaries);
  }

  /** An option that cannot be served ends the output: "ERROR" is the last
      line and no later option adds anything. */
  lemma {:induction false} FailingOptionStops(
    p: seq<string>, opt: string, q: seq<string>, options: map<string, Option<string>>, prof: Profile)
    requires OptionLines(opt, Lookup(options, opt), prof).None?
    ensures PrintLines(p + [opt] + q, options, prof) == PrintLines(p + [opt], options, prof)
    ensures var out := PrintLines(p + [opt], options, prof); out != [] && out[|out| - 1] == "ERROR"
  {
    if p == [] {
      assert ([opt] + q)[0] == opt && [opt][0] == opt;
    } else {
      assert (p + [opt] + q)[0] == p[0] && (p + [opt] + q)[1..] == p[1..] + [opt] + q;
      assert (p + [opt])[0] == p[0] && (p + [opt])[1..] == p[1..] + [opt];
      FailingOptionStops(p[1..], opt, q, options, prof);
    }
  }

  /** Options that all succeed contribute their lines one after another. */
  lemma {:induction false} ServedOptionsConcatenate(
    p: seq<string>, q: seq<string>, options: map<string, Option<string>>, prof: Profile)
    requires forall i :: 0 <= i < |p| ==> OptionLines(p[i], Lookup(options, p[i]), prof).Some?
    ensures PrintLines(p + q, options, prof) == PrintLines(p, options, prof) + PrintLines(q, options, prof)
  {
    if p == [] {
      assert p + q == q;
    } else {
      assert OptionLines(p[0], Lookup(options, p[0]), prof).Some?;
      assert (p + q)[0] == p[0] && (p + q)[1..] == p[1..] + q;
      assert forall i :: 0 <= i < |p| - 1 ==> p[1..][i] == p[i + 1];
      ServedOptionsConcatenate(p[1..], q, options, prof);
    }
  }

  /** `-diary` with the decimal text of a valid index, negative ones
      included, prints that diary's entry; with an out-of-range one it fails. */
  lemma DiaryOptionByIndex(i: int, prof: Profile)
    ensures var n := |prof.entries|;
      OptionLines("-diary", Some(IntToString(i)), prof) ==
        if 0 <= i < n then Some([prof.entries[i]])
        else if -n <= i < 0 then Some([prof.entries[n + i]])
        else None
  {
    ParseIntToString(i);
  }

  /** `-diary` given without a value, or with a value that is no integer, fails. */
  lemma DiaryOptionNeedsInteger(value: Option<string>, prof: Profile)
    requires value.None? || ParseInt(value.value).None?
    ensures OptionLines("-diary", value, prof).None?
  {
  }
}
