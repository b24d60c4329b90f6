/** Selecting one task of the dataset (`load_task`): the task name is
    normalised and validated, the rows of that task are kept and, on request,
    the columns that task does not use are removed. */
module Tasks {
  import opened Seqs
  import opened Frames

  /** The five tasks of the study. */
  const TaskNames: seq<string> := ["art", "cities", "sarcasm", "census", "dermatology"]

  /** The column every row names its task in. */
  const TaskColumn: string := "task_name"

  /** The characters Python's `str.strip()` removes: those for which
      `str.isspace()` holds. */
  predicate IsSpace(c: char) {
    var n := c as int;
    || 0x09 <= n <= 0x0D || 0x1C <= n <= 0x20 || n == 0x85 || n == 0xA0
    || n == 0x1680 || 0x2000 <= n <= 0x200A || n == 0x2028 || n == 0x2029
    || n == 0x202F || n == 0x205F || n == 0x3000
  }

  predicate IsUpper(c: char) {
    'A' <= c <= 'Z'
  }

  /** Lower-casing of one character (ASCII letters only). */
  function LowerChar(c: char): (r: char)
    ensures !IsUpper(r)
    ensures IsSpace(r) <==> IsSpace(c)
    ensures !IsUpper(c) ==> r == c
    ensures IsUpper(c) ==> 'a' <= r <= 'z' && r as int - 'a' as int == c as int - 'A' as int
  {
    if IsUpper(c) then (c as int + 32) as char else c
  }

  /** `s.lower()`: each capital becomes the small letter at the same place
      in the alphabet, and every other character is kept. */
  function Lower(s: string): (r: string)
    ensures |r| == |s|
    ensures forall i :: 0 <= i < |s| ==> !IsUpper(r[i])
    ensures forall i :: 0 <= i < |s| && !IsUpper(s[i]) ==> r[i] == s[i]
    ensures forall i :: 0 <= i < |s| && IsUpper(s[i]) ==>
      'a' <= r[i] <= 'z' && r[i] as int - 'a' as int == s[i] as int - 'A' as int
  {
    seq(|s|, i requires 0 <= i < |s| => LowerChar(s[i]))
  }

  /** `s.lstrip()`: what remains after the leading white space. */
  function StripStart(s: string): (r: string)
    ensures |r| <= |s| && r == s[|s| - |r|..]
    ensures forall k :: 0 <= k < |s| - |r| ==> IsSpace(s[k])
    ensures r == [] || !IsSpace(r[0])
  {
    if s != [] && IsSpace(s[0]) then StripStart(s[1..]) else s
  }

  /** `s.rstrip()`: what remains before the trailing white space. */
  function StripEnd(s: string): (r: string)
    ensures |r| <= |s| && r == s[..|r|]
    ensures forall k :: |r| <= k < |s| ==> IsSpace(s[k])
    ensures r == [] || !IsSpace(r[|r| - 1])
  {
    if s != [] && IsSpace(s[|s| - 1]) then StripEnd(s[..|s| - 1]) else s
  }

  /** `s.strip()`. */
  function Strip(s: string): string {
    StripEnd(StripStart(s))
  }

  /** `task_name.lower().strip()`. */
  function Normalise(name: string): string {
    Strip(Lower(name))
  }

  /** The columns a task does not use, removed when `drop_unused` is set. */
  function UnusedColumns(name: string): set<string> {
    if name == "dermatology" then {"gender", "age", "programming_experience", "socioeconomic_status"}
    else {"years_of_experience", "job_title"}
  }

  /** `load_task(haiid, task_name, drop_unused=True)`. */
  function LoadTask(haiid: Frame, taskName: string, dropUnused: Option<bool>): (r: Result<Frame>)
    ensures r.Ok? <==> Normalise(taskName) in TaskNames && TaskColumn in haiid.columns
    ensures r.Err? ==> r.error == if Normalise(taskName) !in TaskNames then InvalidTask(Normalise(taskName))
                                  else MissingColumn(TaskColumn)
  {
    var name := Normalise(taskName);
    if name !in TaskNames then Err(InvalidTask(name))
    else if TaskColumn !in haiid.columns then Err(MissingColumn(TaskColumn))
    else
      var subset := Where(haiid, TaskColumn, Text(name));
      if dropUnused.GetOr(true) then Ok(Project(subset, UnusedColumns(name))) else Ok(subset)
  }

  /** `Strip` removes exactly the white space at both ends: its result is a
      slice of `s` with nothing but white space before and after it, and it
      neither starts nor ends with white space. */
  lemma {:induction false} StripIsTrimmedSlice(s: string)
    ensures var lo := |s| - |StripStart(s)|; var r := Strip(s);
      && lo + |r| <= |s| && r == s[lo..lo + |r|]
      && (forall k :: 0 <= k < lo ==> IsSpace(s[k]))
      && (forall k :: lo + |r| <= k < |s| ==> IsSpace(s[k]))
      && (r == [] || (!IsSpace(r[0]) && !IsSpace(r[|r| - 1])))
  {
    StripSlice(s);
    StripSpaceAfter(s);
    StripEdges(s);
  }

  /** `Strip(s)` is the slice of `s` starting where `StripStart` stops. */
  lemma {:induction false} StripSlice(s: string)
    ensures var lo := |s| - |StripStart(s)|; var r := Strip(s);
      lo + |r| <= |s| && r == s[lo..lo + |r|]
  {
    var t := StripStart(s);
    var lo := |s| - |t|;
    var r := StripEnd(t);
    PrefixOfSuffix(s, lo, t, r);
  }

  /** A prefix of a suffix of `s` is a slice of `s`. */
  lemma PrefixOfSuffix(s: string, lo: nat, t: string, r: string)
    requires lo <= |s| && t == s[lo..] && |r| <= |t| && r == t[..|r|]
    ensures lo + |r| <= |s| && r == s[lo..lo + |r|]
  {
  }

  /** Everything after that slice is white space. */
  lemma {:induction false} StripSpaceAfter(s: string)
    ensures var lo := |s| - |StripStart(s)|; var r := Strip(s);
      forall k :: lo + |r| <= k < |s| ==> IsSpace(s[k])
  {
    var t := StripStart(s);
    var lo := |s| - |t|;
    var r := StripEnd(t);
    assert t == s[lo..];
    forall k | lo + |r| <= k < |s| ensures IsSpace(s[k]) {
      assert s[k] == t[k - lo];
    }
  }

  /** `Strip(s)` neither starts nor ends with white space. */
  lemma {:induction false} StripEdges(s: string)
    ensures var r := Strip(s); r == [] || (!IsSpace(r[0]) && !IsSpace(r[|r| - 1]))
  {
    var t := StripStart(s);
    var r := StripEnd(t);
    if r != [] {
      assert r == t[..|r|];
      assert r[0] == t[0];
    }
  }

  /** A string with no white space at either end is its own `Strip`. */
  lemma {:induction false} StripTrimmed(s: string)
    requires s == [] || (!IsSpace(s[0]) && !IsSpace(s[|s| - 1]))
    ensures Strip(s) == s
  {
  }

  /** Lower-casing a string without upper case letters changes nothing. */
  lemma {:induction false} LowerOfLowerCase(s: string)
    requires forall i :: 0 <= i < |s| ==> !IsUpper(s[i])
    ensures Lower(s) == s
  {
  }

  /** Normalising twice is normalising once; a normalised name has no upper
      case letter and no white space at either end. */
  lemma {:induction false} NormaliseIdempotent(name: string)
    ensures Normalise(Normalise(name)) == Normalise(name)
    ensures forall i :: 0 <= i < |Normalise(name)| ==> !IsUpper(Normalise(name)[i])
    ensures Normalise(name) == [] || (!IsSpace(Normalise(name)[0]) && !IsSpace(Normalise(name)[|Normalise(name)| - 1]))
  {
    var low := Lower(name);
    var n := Strip(low);
    StripIsTrimmedSlice(low);
    var lo := |low| - |StripStart(low)|;
    assert forall i :: 0 <= i < |n| ==> n[i] == low[lo + i];
    LowerOfLowerCase(n);
    StripTrimmed(n);
  }

  /** Validation: the call fails with an invalid-task error exactly when the
      normalised name is not one of the five tasks. */
  lemma LoadTaskRejectsUnknown(haiid: Frame, taskName: string, dropUnused: Option<bool>)
    ensures LoadTask(haiid, taskName, dropUnused) == Err(InvalidTask(Normalise(taskName)))
        <==> Normalise(taskName) !in ["art", "cities", "sarcasm", "census", "dermatology"]
  {
  }

  /** With `drop_unused=False` the task subset has every column of the dataset
      and exactly the rows whose `task_name` is the normalised name, each
      unchanged, in their original order. */
  lemma LoadTaskKeepsTaskRows(haiid: Frame, taskName: string)
    ensures LoadTask(haiid, taskName, Some(false)).Ok? ==>
      var r := LoadTask(haiid, taskName, Some(false)).value;
      var idx := KeptIndices(haiid.rows, Matches(TaskColumn, Text(Normalise(taskName))));
      && r.columns == haiid.columns
      && |idx| == |r.rows|
      && (forall k :: 0 <= k < |idx| ==> idx[k] < |haiid.rows| && r.rows[k] == haiid.rows[idx[k]])
      && (forall k, l :: 0 <= k < l < |idx| ==> idx[k] < idx[l])
      && (forall i :: 0 <= i < |haiid.rows| ==> (haiid.rows[i][TaskColumn] == Text(Normalise(taskName)) <==> i in idx))
  {
    if LoadTask(haiid, taskName, Some(false)).Ok? {
      WhereSelectsInOrder(haiid, TaskColumn, Text(Normalise(taskName)));
    }
  }

  /** Leaving `drop_unused` out is passing `True`. */
  lemma LoadTaskDropsByDefault(haiid: Frame, taskName: string)
    ensures LoadTask(haiid, taskName, None) == LoadTask(haiid, taskName, Some(true))
  {
  }

  /** With `drop_unused` (given as `True` or left at its default),
      dermatology loses exactly `gender`, `age`, `programming_experience` and
      `socioeconomic_status` and every other task
      exactly `years_of_experience` and `job_title`; the remaining columns
      keep their relative order, and each row is the corresponding row of the
      task subset without the removed columns. */
  lemma LoadTaskDropsUnused(haiid: Frame, taskName: string, dropUnused: Option<bool>)
    ensures dropUnused.GetOr(true) && LoadTask(haiid, taskName, dropUnused).Ok? ==>
      var name := Normalise(taskName);
      var drop := if name == "dermatology" then {"gender", "age", "programming_experience", "socioeconomic_status"}
                  else {"years_of_experience", "job_title"};
      var subset := LoadTask(haiid, taskName, Some(false)).value;
      var r := LoadTask(haiid, taskName, dropUnused).value;
      var idx := KeptIndices(haiid.columns, (c: string) => c !in drop);
      && (forall c :: c in r.columns <==> c in haiid.columns && c !in drop)
      && |idx| == |r.columns|
      && (forall k :: 0 <= k < |idx| ==> idx[k] < |haiid.columns| && r.columns[k] == haiid.columns[idx[k]])
      && (forall k, l :: 0 <= k < l < |idx| ==> idx[k] < idx[l])
      && |r.rows| == |subset.rows|
      && (forall i :: 0 <= i < |r.rows| ==> r.rows[i] == subset.rows[i] - drop)
  {
    if dropUnused.GetOr(true) && LoadTask(haiid, taskName, dropUnused).Ok? {
      var name := Normalise(taskName);
      var subset := Where(haiid, TaskColumn, Text(name));
      ProjectKeepsOthers(subset, UnusedColumns(name));
      var r := Project(subset, UnusedColumns(name));
      forall i | 0 <= i < |r.rows| ensures r.rows[i] == subset.rows[i] - UnusedColumns(name) {
        assert r.rows[i].Keys == subset.rows[i].Keys - UnusedColumns(name);
      }
    }
  }

  /** An unknown task such as "weather" fails. */
  lemma LoadTaskRejectsWeather(haiid: Frame)
    ensures LoadTask(haiid, "weather", None) == Err(InvalidTask("weather"))
  {
    assert Lower("weather") == "weather" by {
      assert forall i :: 0 <= i < |"weather"| ==> !IsUpper("weather"[i]);
      LowerOfLowerCase("weather");
    }
    assert Strip("weather") == "weather" by {
      StripTrimmed("weather");
    }
    assert Normalise("weather") == "weather";
    assert "weather" !in TaskNames;
  }

  /** The name is normalised first, so " Dermatology\n" selects the
      dermatology task. */
  lemma NormaliseExample()
    ensures Normalise(" Dermatology\n") == "dermatology"
  {
    LowerExample();
    StripStartExample();
    StripEndExample();
  }

  lemma LowerExample()
    ensures Lower(" Dermatology\n") == " dermatology\n"
  {
    assert LowerChar('D') == 'd';
    assert forall i :: 0 <= i < 13 && i != 1 ==> !IsUpper(" Dermatology\n"[i]);
  }

  lemma StripStartExample()
    ensures StripStart(" dermatology\n") == "dermatology\n"
  {
    assert " dermatology\n"[1..] == "dermatology\n";
    assert !IsSpace('d');
  }

  lemma StripEndExample()
    ensures StripEnd("dermatology\n") == "dermatology"
  {
    assert "dermatology\n"[..11] == "dermatology";
    assert !IsSpace('y');
  }
}
