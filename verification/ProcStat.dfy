/** Reading a process' start time from /proc/<pid>/stat (lastowner.go). */
module ProcStat {
  import opened Common
  import opened Numerals
  import opened Strings

  const WORD64: int := 0x1_0000_0000_0000_0000

  predicate IsBlank(c: char) {
    c == ' ' || '\t' <= c <= '\r' || c == '\U{0085}' || c == '\U{00A0}'
  }

  function FieldLength(s: string): (n: nat)
    ensures n <= |s| && (s != "" && !IsBlank(s[0]) ==> n > 0)
  {
    if s == "" || IsBlank(s[0]) then 0 else 1 + FieldLength(s[1..])
  }

  /** strings.Fields */
  function Fields(s: string): seq<string>
    decreases |s|
  {
    if s == "" then []
    else if IsBlank(s[0]) then Fields(s[1..])
    else [s[..FieldLength(s)]] + Fields(s[FieldLength(s)..])
  }

  /** Field 22 counts from the last closing parenthesis: field 2, the command,
      may hold anything. */
  function StartTime(stat: string): Option<nat> {
    var i := LastIndexOf(stat, ')');
    if i < 0 then None
    else
      var f := Fields(stat[i + 1..]);
      if |f| <= 19 then None else Parse(10, f[19], WORD64)
  }

  // ---- what the kernel writes ----

  /** A field after the command: not empty, no white space, no parenthesis. */
  predicate IsField(f: string) {
    f != "" && ')' !in f && forall i :: 0 <= i < |f| ==> !IsBlank(f[i])
  }

  /** The fields that follow the command, and the end of the line. */
  function Tail(fields: seq<string>): string {
    if fields == [] then "\n" else " " + fields[0] + Tail(fields[1..])
  }

  function Stat(pid: string, comm: string, fields: seq<string>): string {
    pid + " (" + comm + ")" + Tail(fields)
  }

  lemma {:induction false} RunOfField(f: string, s: string)
    requires (forall i :: 0 <= i < |f| ==> !IsBlank(f[i])) && s != "" && IsBlank(s[0])
    ensures FieldLength(f + s) == |f|
  {
    if f == "" {
      assert f + s == s;
    } else {
      assert (f + s)[1..] == f[1..] + s;
      RunOfField(f[1..], s);
    }
  }

  lemma FieldsStep(f: string, rest: string)
    requires IsField(f) && rest != "" && IsBlank(rest[0])
    ensures Fields(" " + f + rest) == [f] + Fields(rest)
  {
    var s := f + rest;
    assert (" " + f + rest)[1..] == s;
    RunOfField(f, rest);
    assert s[..|f|] == f && s[|f|..] == rest;
  }

  lemma {:induction false} FieldsOfTail(fields: seq<string>)
    requires forall i :: 0 <= i < |fields| ==> IsField(fields[i])
    ensures Fields(Tail(fields)) == fields
    ensures ')' !in Tail(fields) && IsBlank(Tail(fields)[0])
  {
    if fields == [] {
      assert Fields("\n") == Fields("\n"[1..]);
    } else {
      FieldsOfTail(fields[1..]);
      FieldsStep(fields[0], Tail(fields[1..]));
    }
  }

  lemma TailAfterCommand(pid: string, comm: string, fields: seq<string>)
    requires forall i :: 0 <= i < |fields| ==> IsField(fields[i])
    ensures StartTime(Stat(pid, comm, fields)) == if |fields| <= 19 then None else Parse(10, fields[19], WORD64)
  {
    var head := pid + " (" + comm;
    var stat := Stat(pid, comm, fields);
    FieldsOfTail(fields);
    assert stat == head + ")" + Tail(fields);
    assert stat[|head| + 1..] == Tail(fields);
    LastIndex(stat, |head|, ')');
  }

  /** Whatever the command is called, with spaces, parentheses or both, the
      start time is field 22. */
  lemma StartTimeIsField22(pid: string, comm: string, fields: seq<string>, start: nat)
    requires (forall i :: 0 <= i < |fields| ==> IsField(fields[i])) && |fields| >= 20
    requires fields[19] == Show(10, start) && start < WORD64
    ensures StartTime(Stat(pid, comm, fields)) == Some(start)
  {
    TailAfterCommand(pid, comm, fields);
    ShowRoundTrip(10, start, WORD64);
  }

  /** A line that ends too early gives no start time. */
  lemma ShortStatHasNone(pid: string, comm: string, fields: seq<string>)
    requires (forall i :: 0 <= i < |fields| ==> IsField(fields[i])) && |fields| < 20
    ensures StartTime(Stat(pid, comm, fields)) == None
  {
    TailAfterCommand(pid, comm, fields);
  }

  /** Nor does one whose field 22 is not a number. */
  lemma BadFieldHasNone(pid: string, comm: string, fields: seq<string>, i: nat)
    requires (forall j :: 0 <= j < |fields| ==> IsField(fields[j])) && |fields| >= 20
    requires i < |fields[19]| && !('0' <= fields[19][i] <= '9')
    ensures StartTime(Stat(pid, comm, fields)) == None
  {
    TailAfterCommand(pid, comm, fields);
    ForeignSpoils(10, fields[19], i);
  }

  /** Nor one without a parenthesis. */
  lemma NoCommandHasNone(stat: string)
    requires ')' !in stat
    ensures StartTime(stat) == None
  {
    assert LastIndexOf(stat, ')') < 0;
  }
}
