/** Reading a process's parent, session and start time from its `/proc/<pid>/stat` line. */
module ProcStat {
  import opened Wrappers
  import opened Bytes
  import opened Text

  datatype LinuxProcessStat = LinuxProcessStat(parentPid: int, sessionId: int, startTime: nat)

  /**
   * The parser. Everything up to the last closing parenthesis is the pid and command name;
   * one byte separates it from the white-space separated fields, which start with the state.
   */
  function ParseLinuxProcessStat(stat: string): Option<LinuxProcessStat> {
    match LastIndexOf(stat, ')')
    case None => None
    case Some(close) =>
      if close + 1 >= |stat| || stat[close + 1] >= 128 as char then None
      else ParseFields(SplitWhitespace(stat[close + 2..]))
  }

  function ParseFields(fields: seq<string>): Option<LinuxProcessStat> {
    if |fields| < 20 then None
    else
      var parent, session, start :=
        ParseI32(fields[1]), ParseI32(fields[3]), ParseUnsigned(fields[19], 10, U64_MAX);
      if parent.None? || session.None? || start.None? then None
      else Some(LinuxProcessStat(parent.value, session.value, start.value))
  }

  /** The fields after the command name, as the kernel prints them. */
  function KernelFields(state: string, stat: LinuxProcessStat, group: string, middle: seq<string>, tail: seq<string>)
    : (fields: seq<string>)
    ensures |middle| == 15 ==> |fields| == 20 + |tail|
  {
    [state, SignedDecimal(stat.parentPid), group, SignedDecimal(stat.sessionId)] + middle +
    [Decimal(stat.startTime)] + tail
  }

  ghost predicate PlainTokens(tokens: seq<string>) {
    Tokens(tokens) && forall i :: 0 <= i < |tokens| ==> ')' !in tokens[i]
  }

  lemma {:induction false} JoinAvoids(tokens: seq<string>, c: char)
    requires c != ' ' && forall i :: 0 <= i < |tokens| ==> c !in tokens[i]
    ensures c !in Join(tokens)
  {
    if |tokens| > 1 {
      JoinAvoids(tokens[1..], c);
    }
  }

  lemma LastIndexOfUnique(s: string, c: char, k: nat)
    requires k < |s| && s[k] == c && c !in s[k + 1..]
    ensures LastIndexOf(s, c) == Some(k)
  {
    var found := LastIndexOf(s, c);
    assert s[k] in s;
    match found {
      case None =>
      case Some(i) =>
        TailHolds(s, i, k);
        TailHolds(s, k, i);
    }
  }

  lemma TailHolds(s: string, i: nat, j: nat)
    requires j < |s|
    ensures i < j ==> s[j] in s[i + 1..]
  {
    if i < j {
      assert s[i + 1..][j - i - 1] == s[j];
    }
  }

  lemma KernelFieldsPlain(
    state: string, stat: LinuxProcessStat, group: string, middle: seq<string>, tail: seq<string>)
    requires PlainTokens([state, group]) && PlainTokens(middle) && PlainTokens(tail) && |middle| == 15
    requires -0x8000_0000 <= stat.parentPid < 0x8000_0000 && -0x8000_0000 <= stat.sessionId < 0x8000_0000
    ensures PlainTokens(KernelFields(state, stat, group, middle, tail))
  {
    SignedDecimalParses(stat.parentPid);
    SignedDecimalParses(stat.sessionId);
    DecimalValue(stat.startTime);
    assert [state, group][0] == state && [state, group][1] == group;
    var fields := KernelFields(state, stat, group, middle, tail);
    forall i | 0 <= i < |fields|
      ensures fields[i] != "" && NoWhitespace(fields[i]) && ')' !in fields[i]
    {
      if 4 <= i < 19 {
        assert fields[i] == middle[i - 4];
      } else if i >= 20 {
        assert fields[i] == tail[i - 20];
      }
    }
  }

  /**
   * Parsing recovers parent, session and start time for every command name, closing
   * parentheses and spaces included: `head` is arbitrary text.
   */
  lemma ParseRecovers(
    head: string, state: string, stat: LinuxProcessStat, group: string, middle: seq<string>, tail: seq<string>)
    requires PlainTokens([state, group]) && PlainTokens(middle) && PlainTokens(tail) && |middle| == 15
    requires -0x8000_0000 <= stat.parentPid < 0x8000_0000 && -0x8000_0000 <= stat.sessionId < 0x8000_0000
    requires stat.startTime <= U64_MAX
    ensures ParseLinuxProcessStat(head + ") " + Join(KernelFields(state, stat, group, middle, tail))) == Some(stat)
  {
    var fields := KernelFields(state, stat, group, middle, tail);
    KernelFieldsPlain(state, stat, group, middle, tail);
    ParseAfterCommand(head, fields);
    FieldsRecovered(state, stat, group, middle, tail);
  }

  lemma ParseAfterCommand(head: string, fields: seq<string>)
    requires PlainTokens(fields)
    ensures ParseLinuxProcessStat(head + ") " + Join(fields)) == ParseFields(fields)
  {
    hide ParseFields, Join, SplitWhitespace;
    var line := head + ") " + Join(fields);
    JoinAvoids(fields, ')');
    SplitJoin(fields);
    assert line[|head|] == ')' && line[|head| + 1] == ' ';
    assert line[|head| + 1..] == " " + Join(fields);
    assert line[|head| + 2..] == Join(fields);
    LastIndexOfUnique(line, ')', |head|);
  }

  lemma FieldsRecovered(
    state: string, stat: LinuxProcessStat, group: string, middle: seq<string>, tail: seq<string>)
    requires |middle| == 15
    requires -0x8000_0000 <= stat.parentPid < 0x8000_0000 && -0x8000_0000 <= stat.sessionId < 0x8000_0000
    requires stat.startTime <= U64_MAX
    ensures ParseFields(KernelFields(state, stat, group, middle, tail)) == Some(stat)
  {
    hide ParseI32, ParseUnsigned, SignedDecimal, Decimal;
    SignedDecimalParses(stat.parentPid);
    SignedDecimalParses(stat.sessionId);
    DecimalParses(stat.startTime, U64_MAX);
  }

  /** The character after the command name is skipped if it is a single byte; nothing is read after any other. */
  lemma SeparatorMeans(head: string, separator: char, fields: seq<string>)
    requires PlainTokens(fields) && separator != ')'
    ensures ParseLinuxProcessStat(head + ")" + [separator] + Join(fields)) ==
      if separator as int <= 127 then ParseFields(fields) else None
    ensures ParseLinuxProcessStat(head + ")") == None
  {
    hide ParseFields, Join, SplitWhitespace;
    var line := head + ")" + [separator] + Join(fields);
    JoinAvoids(fields, ')');
    SplitJoin(fields);
    assert line[|head|] == ')' && line[|head| + 1] == separator;
    assert line[|head| + 1..] == [separator] + Join(fields);
    assert line[|head| + 2..] == Join(fields);
    LastIndexOfUnique(line, ')', |head|);
    assert (head + ")")[|head|] == ')' && (head + ")")[|head| + 1..] == "";
    LastIndexOfUnique(head + ")", ')', |head|);
  }

  /** A line without a closing parenthesis, or with fewer than twenty fields after it, says nothing. */
  lemma TooLittle(line: string, fields: seq<string>)
    ensures ')' !in line ==> ParseLinuxProcessStat(line) == None
    ensures |fields| < 20 ==> ParseFields(fields) == None
  {
    hide SplitWhitespace;
  }

  /** A start time beyond 64 bits is refused. */
  lemma StartTimeMustFit(fields: seq<string>, start: nat)
    requires |fields| >= 20 && fields[19] == Decimal(start) && start > 18446744073709551615
    ensures ParseFields(fields) == None
  {
    DecimalValue(start);
    UnsignedMeans(fields[19], 10, U64_MAX, start);
    hide ParseUnsigned, ParseI32, Decimal;
  }
}
