/** The common settings (CommonConfigParser.java): six lines, each `name
    value`, assigned to the settings by line number. */
module CommonConfig {
  import opened Common
  import opened Text

  /** The six settings; `fileName` is `null` (`None`) until line 4 sets
      it. */
  datatype Settings = Settings(
    numberOfPreferredNeighbors: int,
    unchokingInterval: int,
    optimisticUnchokingInterval: int,
    fileName: Option<string>,
    fileSize: int,
    pieceSize: int)

  /** The Java defaults of the six fields. */
  const DEFAULTS: Settings := Settings(0, 0, 0, None, 0, 0)

  /** Line `k` (1 to 6) holds a value for its setting: a second token, which
      for every line but the fourth is a decimal `int`. */
  predicate GoodLine(k: int, line: string) {
    |Split(line)| >= 2 && (k == 4 || ParseInt(Split(line)[1]).Some?)
  }

  /** The number the well-formed line gives its setting. */
  function Value(line: string): int
    requires |Split(line)| >= 2 && ParseInt(Split(line)[1]).Some?
  {
    ParseInt(Split(line)[1]).value
  }

  /** The setting of line `k` assigned from the line. */
  function Assign(s: Settings, k: int, line: string): Settings
    requires 1 <= k <= 6 && GoodLine(k, line)
  {
    if k == 4 then s.(fileName := Some(Split(line)[1]))
    else if k == 1 then s.(numberOfPreferredNeighbors := Value(line))
    else if k == 2 then s.(unchokingInterval := Value(line))
    else if k == 3 then s.(optimisticUnchokingInterval := Value(line))
    else if k == 5 then s.(fileSize := Value(line))
    else s.(pieceSize := Value(line))
  }

  /** The effect of the line with number `lineNumber` on the settings: lines
      1 to 6 set their field from the second token, lines with another number
      change nothing, and `None` stands for the exception raised when the
      second token is missing (ArrayIndexOutOfBoundsException) or is not a
      number (NumberFormatException). */
  function ApplyLine(s: Settings, lineNumber: int, line: string): Option<Settings>
  {
    if lineNumber < 1 || lineNumber > 6 then Some(s)
    else if !GoodLine(lineNumber, line) then None
    else Some(Assign(s, lineNumber, line))
  }

  /** The settings after the lines `lines`, of which `lineNumber` have been
      read before: the line counter is a Java `int`, and the first exception
      ends the loop with the settings as they are. */
  function ApplyLines(s: Settings, lines: seq<string>, lineNumber: int): Settings
    decreases |lines|
  {
    if lines == [] then s
    else match ApplyLine(s, Wrap32(lineNumber + 1), lines[0])
      case None => s
      case Some(s') => ApplyLines(s', lines[1..], Wrap32(lineNumber + 1))
  }

  /** Every numeric setting holds a Java `int`. */
  predicate IntFields(s: Settings) {
    IsInt(s.numberOfPreferredNeighbors) && IsInt(s.unchokingInterval) && IsInt(s.optimisticUnchokingInterval)
    && IsInt(s.fileSize) && IsInt(s.pieceSize)
  }

  /** Parsing only ever stores values `Integer.parseInt` returned. */
  lemma {:induction false} ApplyLinesInts(s: Settings, lines: seq<string>, lineNumber: int)
    requires IntFields(s)
    ensures IntFields(ApplyLines(s, lines, lineNumber))
    decreases |lines|
  {
    if lines != [] {
      var n := Wrap32(lineNumber + 1);
      if ApplyLine(s, n, lines[0]).Some? {
        ApplyLinesInts(ApplyLine(s, n, lines[0]).value, lines[1..], n);
      }
    }
  }

  class CommonConfigParser {
    var numberOfPreferredNeighbors: int
    var unchokingInterval: int
    var optimisticUnchokingInterval: int
    var fileName: Option<string>
    var fileSize: int
    var pieceSize: int

    function Current(): Settings
      reads this
    {
      Settings(numberOfPreferredNeighbors, unchokingInterval, optimisticUnchokingInterval, fileName, fileSize, pieceSize)
    }

    /** Reads the configuration whose lines are `lines`. */
    constructor (lines: seq<string>)
      ensures Current() == ApplyLines(DEFAULTS, lines, 0)
    {
      numberOfPreferredNeighbors := 0;
      unchokingInterval := 0;
      optimisticUnchokingInterval := 0;
      fileName := None;
      fileSize := 0;
      pieceSize := 0;
      new;
      ParseInput(lines);
    }

    /** `parseInput`: counts every line and assigns by line number. */
    method ParseInput(lines: seq<string>)
      modifies this
      ensures Current() == ApplyLines(old(Current()), lines, 0)
    {
      var lineNumber := 0;
      var i := 0;
      while i < |lines|
        invariant 0 <= i <= |lines|
        invariant ApplyLines(Current(), lines[i..], lineNumber) == ApplyLines(old(Current()), lines, 0)
      {
        assert lines[i..][0] == lines[i] && lines[i..][1..] == lines[i + 1..];
        lineNumber := Wrap32(lineNumber + 1);
        var parts := Split(lines[i]);
        if 1 <= lineNumber <= 6 {
          if |parts| < 2 {
            break;
          }
          if lineNumber == 4 {
            fileName := Some(parts[1]);
          } else {
            var v := ParseInt(parts[1]);
            if v.None? {
              break;
            }
            if lineNumber == 1 {
              numberOfPreferredNeighbors := v.value;
            } else if lineNumber == 2 {
              unchokingInterval := v.value;
            } else if lineNumber == 3 {
              optimisticUnchokingInterval := v.value;
            } else if lineNumber == 5 {
              fileSize := v.value;
            } else {
              pieceSize := v.value;
            }
          }
        }
        i := i + 1;
      }
      if i == |lines| {
        assert lines[i..] == [];
      }
    }
  }

  /** The settings after `lines` when none of them raises, from line
      `n + 1` on. */
  function ApplyAll(s: Settings, lines: seq<string>, n: int): Option<Settings>
    decreases |lines|
  {
    if lines == [] then Some(s)
    else match ApplyLine(s, Wrap32(n + 1), lines[0])
      case None => None
      case Some(s') => ApplyAll(s', lines[1..], Wrap32(n + 1))
  }

  /** Lines that all parse are applied one after another, and what follows
      them starts from the settings they leave and from the next line
      number. */
  lemma {:induction false} ApplyLinesAppend(s: Settings, a: seq<string>, b: seq<string>, n: nat)
    requires n + |a| <= INT_MAX && ApplyAll(s, a, n).Some?
    ensures ApplyLines(s, a + b, n) == ApplyLines(ApplyAll(s, a, n).value, b, n + |a|)
    decreases |a|
  {
    if a == [] {
      assert a + b == b;
    } else {
      assert (a + b)[0] == a[0] && (a + b)[1..] == a[1..] + b;
      var s' := ApplyLine(s, n + 1, a[0]).value;
      ApplyLinesAppend(s', a[1..], b, n + 1);
    }
  }

  /** The first line that raises ends the parse: the lines before it are
      applied and nothing from it on. */
  lemma StopsAtFailure(s: Settings, a: seq<string>, line: string, b: seq<string>, n: nat)
    requires n + |a| < INT_MAX && ApplyAll(s, a, n).Some?
    requires ApplyLine(ApplyAll(s, a, n).value, n + |a| + 1, line).None?
    ensures ApplyLines(s, a + [line] + b, n) == ApplyAll(s, a, n).value
  {
    assert a + [line] + b == a + ([line] + b);
    ApplyLinesAppend(s, a, [line] + b, n);
    assert ([line] + b)[0] == line;
  }

  /** Lines after the sixth are read but change nothing. */
  lemma {:induction false} LaterLinesIgnored(s: Settings, lines: seq<string>, n: nat)
    requires 6 <= n && n + |lines| <= INT_MAX
    ensures ApplyLines(s, lines, n) == s
    decreases |lines|
  {
    if lines != [] {
      LaterLinesIgnored(s, lines[1..], n + 1);
    }
  }

  /** The lines `a`, all well formed, assigned one after another from line
      `n + 1` on. */
  function AssignAll(s: Settings, a: seq<string>, n: nat): Settings
    decreases |a|
  {
    if a == [] || n >= 6 || !GoodLine(n + 1, a[0]) then s
    else AssignAll(Assign(s, n + 1, a[0]), a[1..], n + 1)
  }

  /** Well-formed lines among the first six all assign their setting. */
  lemma {:induction false} ApplyAllGood(s: Settings, a: seq<string>, n: nat)
    requires n + |a| <= 6
    requires forall i :: 0 <= i < |a| ==> GoodLine(n + i + 1, a[i])
    ensures ApplyAll(s, a, n) == Some(AssignAll(s, a, n))
    decreases |a|
  {
    if a != [] {
      assert GoodLine(n + 1, a[0]);
      forall i | 0 <= i < |a| - 1
        ensures GoodLine(n + 1 + i + 1, a[1..][i])
      {
        assert GoodLine(n + (i + 1) + 1, a[i + 1]);
      }
      ApplyAllGood(Assign(s, n + 1, a[0]), a[1..], n + 1);
    }
  }

  /** Six well-formed lines: line `k` is at index `k - 1`. */
  predicate SixGood(six: seq<string>) {
    |six| == 6
    && GoodLine(1, six[0]) && GoodLine(2, six[1]) && GoodLine(3, six[2])
    && GoodLine(4, six[3]) && GoodLine(5, six[4]) && GoodLine(6, six[5])
  }

  lemma SixGoodLines(six: seq<string>)
    requires SixGood(six)
    ensures forall i :: 0 <= i < 6 ==> GoodLine(0 + i + 1, six[i])
  {
    forall i | 0 <= i < 6
      ensures GoodLine(0 + i + 1, six[i])
    {
      if i == 0 {
      } else if i == 1 {
      } else if i == 2 {
      } else if i == 3 {
      } else if i == 4 {
      } else {
        assert i == 5;
      }
    }
  }

  /** The settings six well-formed lines assign. */
  function SixSettings(six: seq<string>): Settings
    requires SixGood(six)
  {
    Settings(Value(six[0]), Value(six[1]), Value(six[2]), Some(Split(six[3])[1]),
             Value(six[4]), Value(six[5]))
  }

  lemma AssignSix(six: seq<string>)
    requires SixGood(six)
    ensures AssignAll(DEFAULTS, six, 0) == SixSettings(six)
  {
    var t1 := Assign(DEFAULTS, 1, six[0]);
    var t2 := Assign(t1, 2, six[1]);
    var t3 := Assign(t2, 3, six[2]);
    var t4 := Assign(t3, 4, six[3]);
    var t5 := Assign(t4, 5, six[4]);
    var t6 := Assign(t5, 6, six[5]);
    assert AssignAll(t5, six[5..], 5) == t6 by {
      assert six[5..][1..] == [];
    }
    assert AssignAll(t4, six[4..], 4) == t6 by {
      assert six[4..][1..] == six[5..];
    }
    assert AssignAll(t3, six[3..], 3) == t6 by {
      assert six[3..][1..] == six[4..];
    }
    assert AssignAll(t2, six[2..], 2) == t6 by {
      assert six[2..][1..] == six[3..];
    }
    assert AssignAll(t1, six[1..], 1) == t6 by {
      assert six[1..][1..] == six[2..];
    }
  }

  /** Six well-formed lines parse without an exception. */
  lemma ApplySix(six: seq<string>)
    requires SixGood(six)
    ensures ApplyAll(DEFAULTS, six, 0) == Some(SixSettings(six))
  {
    SixGoodLines(six);
    ApplyAllGood(DEFAULTS, six, 0);
    AssignSix(six);
  }

  /** A file whose first six lines are well formed configures the six
      settings from them in order, whatever follows them. */
  lemma SixLines(six: seq<string>, rest: seq<string>)
    requires SixGood(six) && 6 + |rest| <= INT_MAX
    ensures ApplyLines(DEFAULTS, six + rest, 0) == SixSettings(six)
  {
    ApplySix(six);
    ApplyLinesAppend(DEFAULTS, six, rest, 0);
    LaterLinesIgnored(SixSettings(six), rest, 6);
  }
}
