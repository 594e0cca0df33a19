/** The formatter of the log: placeholders filled in order, the text of an argument never read again. */
module LogFormat {
  import opened Sequences
  import opened Wrappers
  import opened Text

  const PLACEHOLDER := "{}"

  /** What goes into the i-th gap between the pieces: an argument while there are any, then the
      placeholder itself. */
  function Filling(args: seq<string>, i: nat): string
  {
    if i < |args| then args[i] else PLACEHOLDER
  }

  /** The pieces with the gaps filled, gap numbers starting at i. */
  function Weave(ps: seq<string>, args: seq<string>, i: nat): string
    requires ps != []
    decreases |ps|
  {
    if |ps| == 1 then ps[0] else ps[0] + Filling(args, i) + Weave(ps[1..], args, i + 1)
  }

  function Placeholders(fmt: string): nat
  {
    |Pieces(fmt, PLACEHOLDER)| - 1
  }

  /** The arguments left over when every placeholder has one. */
  function Surplus(args: seq<string>, k: nat): seq<string>
  {
    if k < |args| then args[k..] else []
  }

  function Formatted(fmt: string, args: seq<string>): string
  {
    Weave(Pieces(fmt, PLACEHOLDER), args, 0) + Flatten(Surplus(args, Placeholders(fmt)))
  }

  lemma WeaveStep(s: string, args: seq<string>, i: nat, at: nat, rest: string)
    requires Find(s, PLACEHOLDER, 0) == Some(at) && rest == s[at + |PLACEHOLDER|..]
    ensures Pieces(s, PLACEHOLDER) == [s[..at]] + Pieces(rest, PLACEHOLDER)
    ensures Weave(Pieces(s, PLACEHOLDER), args, i)
      == s[..at] + Filling(args, i) + Weave(Pieces(rest, PLACEHOLDER), args, i + 1)
  {
    var ps, qs := Pieces(s, PLACEHOLDER), Pieces(rest, PLACEHOLDER);
    assert ps == [s[..at]] + qs;
    assert ps[1..] == qs;
  }

  /** What the text from a position on contributes, gap numbers starting at gap. */
  function From(fmt: string, args: seq<string>, pos: nat, gap: nat): string
    requires pos <= |fmt|
  {
    Weave(Pieces(fmt[pos..], PLACEHOLDER), args, gap)
  }

  /** How many placeholders there are from a position on. */
  function Gaps(fmt: string, pos: nat): nat
    requires pos <= |fmt|
  {
    |Pieces(fmt[pos..], PLACEHOLDER)| - 1
  }

  lemma NoGap(fmt: string, args: seq<string>, pos: nat, gap: nat)
    requires pos <= |fmt| && Find(fmt, PLACEHOLDER, pos) == None
    ensures From(fmt, args, pos, gap) == fmt[pos..] && Gaps(fmt, pos) == 0
  {
    FindFrom(fmt, PLACEHOLDER, pos);
  }

  /** The first loop's step: the text up to the placeholder and its filling move to the output. */
  lemma FillGap(fmt: string, args: seq<string>, pos: nat, gap: nat, at: nat, next: nat)
    requires pos <= |fmt| && Find(fmt, PLACEHOLDER, pos) == Some(at) && next == at + |PLACEHOLDER|
    ensures From(fmt, args, pos, gap) == fmt[pos..at] + Filling(args, gap) + From(fmt, args, next, gap + 1)
    ensures Gaps(fmt, pos) == 1 + Gaps(fmt, next)
  {
    FindFrom(fmt, PLACEHOLDER, pos);
    SliceTwice(fmt, pos, at, next);
    WeaveStep(fmt[pos..], args, gap, at - pos, fmt[next..]);
  }

  lemma SliceTwice(s: string, pos: nat, at: nat, next: nat)
    requires pos <= at <= next <= |s|
    ensures s[pos..][..at - pos] == s[pos..at] && s[pos..][next - pos..] == s[next..]
  {
  }

  lemma AppendTwo(a: string, b: string, c: string, d: string)
    ensures a + (b + c + d) == a + b + c + d
  {
  }

  /** The second loop of the formatter. */
  method AppendSurplus(oss: string, args: seq<string>, from: nat) returns (r: string)
    requires from <= |args|
    ensures r == oss + Flatten(args[from..])
  {
    r := oss;
    var argIndex := from;
    ghost var left := Flatten(args[from..]);
    while argIndex < |args|
      invariant argIndex <= |args| && left == Flatten(args[argIndex..])
      invariant r + left == oss + Flatten(args[from..])
    {
      assert args[argIndex..][1..] == args[argIndex + 1..];
      ghost var after := Flatten(args[argIndex + 1..]);
      assert r + (args[argIndex] + after) == (r + args[argIndex]) + after;
      r, left := r + args[argIndex], after;
      argIndex := argIndex + 1;
    }
  }

  /** The first loop of the formatter: where it stops, the text behind `pos` is all that is missing. */
  method FillPlaceholders(prefix: string, fmt: string, args: seq<string>)
    returns (oss: string, pos: nat, argIndex: nat)
    ensures pos <= |fmt| && oss + fmt[pos..] == prefix + From(fmt, args, 0, 0)
    ensures argIndex == if Placeholders(fmt) < |args| then Placeholders(fmt) else |args|
  {
    oss, pos, argIndex := prefix, 0, 0;
    var placeholder := Find(fmt, PLACEHOLDER, pos);
    ghost var gap, left := 0, From(fmt, args, 0, 0);
    ghost var all := left;
    assert fmt[0..] == fmt;
    while placeholder != None
      invariant pos <= |fmt| && placeholder == Find(fmt, PLACEHOLDER, pos)
      invariant argIndex == if gap < |args| then gap else |args|
      invariant gap + Gaps(fmt, pos) == Placeholders(fmt)
      invariant left == From(fmt, args, pos, gap) && oss + left == prefix + all
      decreases |fmt| - pos
    {
      var next := placeholder.value + |PLACEHOLDER|;
      FillGap(fmt, args, pos, gap, placeholder.value, next);
      gap, left := gap + 1, From(fmt, args, next, gap + 1);
      AppendTwo(oss, fmt[pos..placeholder.value], Filling(args, gap - 1), left);
      oss := oss + fmt[pos..placeholder.value];
      if argIndex < |args| {
        oss := oss + args[argIndex];
        argIndex := argIndex + 1;
      } else {
        oss := oss + "{}";
      }
      pos := next;
      placeholder := Find(fmt, PLACEHOLDER, pos);
    }
    NoGap(fmt, args, pos, gap);
  }

  /** `FormatMessage`, behind the prefix of level and time. */
  method FormatMessage(prefix: string, fmt: string, args: seq<string>) returns (oss: string)
    ensures oss == prefix + Formatted(fmt, args)
  {
    var pos, argIndex;
    oss, pos, argIndex := FillPlaceholders(prefix, fmt, args);
    oss := oss + fmt[pos..];
    assert fmt[0..] == fmt;
    assert args[argIndex..] == Surplus(args, Placeholders(fmt));
    oss := AppendSurplus(oss, args, argIndex);
    assert prefix + From(fmt, args, 0, 0) + Flatten(args[argIndex..]) == prefix + Formatted(fmt, args);
  }

  // ---------------------------------------------------------------- what that means

  function TotalLength(ss: seq<string>): nat
  {
    if ss == [] then 0 else |ss[0]| + TotalLength(ss[1..])
  }

  lemma {:induction false} JoinLength(ps: seq<string>, sep: string)
    requires ps != []
    ensures |Join(ps, sep)| == TotalLength(ps) + |sep| * (|ps| - 1)
  {
    if |ps| > 1 {
      JoinLength(ps[1..], sep);
      assert |sep| * (|ps| - 1) == |sep| + |sep| * (|ps[1..]| - 1);
    } else {
      assert ps[1..] == [];
    }
  }

  lemma {:induction false} ConcatLength(ss: seq<string>)
    ensures |Flatten(ss)| == TotalLength(ss)
  {
    if ss == [] {
    } else {
      ConcatLength(ss[1..]);
    }
  }

  /** Arguments from i on fill the gaps, the rest of the gaps keep two characters each. */
  lemma {:induction false} WeaveLength(ps: seq<string>, args: seq<string>, i: nat)
    requires ps != [] && i <= |args|
    ensures var k, n := |ps| - 1, |args| - i;
      |Weave(ps, args, i)| == TotalLength(ps) + TotalLength(args[i..i + Min(k, n)]) + 2 * (k - Min(k, n))
    decreases |ps|
  {
    if |ps| == 1 {
      assert ps[1..] == [] && args[i..i] == [];
    } else if i < |args| {
      WeaveLength(ps[1..], args, i + 1);
      var m := Min(|ps| - 1, |args| - i);
      assert args[i..i + m][1..] == args[i + 1..i + m];
    } else {
      NothingLeft(ps, args, i);
      assert args[i..i] == [];
    }
  }

  lemma {:induction false} NothingLeft(ps: seq<string>, args: seq<string>, i: nat)
    requires ps != [] && i >= |args|
    ensures Weave(ps, args, i) == Join(ps, PLACEHOLDER) && |Weave(ps, args, i)| == TotalLength(ps) + 2 * (|ps| - 1)
    decreases |ps|
  {
    JoinLength(ps, PLACEHOLDER);
    if |ps| > 1 {
      NothingLeft(ps[1..], args, i + 1);
    }
  }

  lemma {:induction false} TotalLengthSplits(ss: seq<string>, k: nat)
    requires k <= |ss|
    ensures TotalLength(ss[..k]) + TotalLength(ss[k..]) == TotalLength(ss)
  {
    if k > 0 {
      assert ss[..k][1..] == ss[1..][..k - 1] && ss[1..][k - 1..] == ss[k..];
      TotalLengthSplits(ss[1..], k - 1);
    } else {
      assert ss[..0] == [] && ss[0..] == ss;
    }
  }

  /** With k placeholders and n arguments the message is as long as the format without min(k, n)
      placeholders plus all arguments. */
  lemma FormattedLength(fmt: string, args: seq<string>)
    ensures |Formatted(fmt, args)| == |fmt| - 2 * Min(Placeholders(fmt), |args|) + TotalLength(args)
  {
    var ps, k := Pieces(fmt, PLACEHOLDER), Placeholders(fmt);
    var m := Min(k, |args|);
    PiecesSplit(fmt, PLACEHOLDER);
    JoinLength(ps, PLACEHOLDER);
    WeaveLength(ps, args, 0);
    TotalLengthSplits(args, m);
    assert args[0..0 + m] == args[..m];
    assert Surplus(args, k) == args[m..];
    ConcatLength(args[m..]);
  }

  /** Without arguments the format comes out unchanged, placeholders and all. */
  lemma NoArguments(fmt: string)
    ensures Formatted(fmt, []) == fmt
  {
    NothingLeft(Pieces(fmt, PLACEHOLDER), [], 0);
    PiecesSplit(fmt, PLACEHOLDER);
    assert Surplus([], Placeholders(fmt)) == [];
  }

  lemma SurplusShifts(args: seq<string>, k: nat)
    requires args != []
    ensures Surplus(args, k + 1) == Surplus(args[1..], k)
  {
  }

  lemma FirstFilled(fmt: string, args: seq<string>, at: nat, rest: string, text: string)
    requires Find(fmt, PLACEHOLDER, 0) == Some(at) && rest == fmt[at + |PLACEHOLDER|..] && args != []
    requires text == Weave(Pieces(rest, PLACEHOLDER), args[1..], 0)
    ensures Weave(Pieces(fmt, PLACEHOLDER), args, 0) == fmt[..at] + args[0] + text
    ensures Placeholders(fmt) == 1 + Placeholders(rest)
  {
    WeaveStep(fmt, args, 0, at, rest);
    hide Find, Pieces, Weave;
    ShiftArguments(Pieces(rest, PLACEHOLDER), args, 1);
  }

  /** One argument for one placeholder: it lands there as it is, even if it contains placeholders
      itself, and the rest of the format is filled from the remaining arguments alone. */
  lemma FirstArgument(fmt: string, args: seq<string>, at: nat, rest: string)
    requires Find(fmt, "{}", 0) == Some(at) && rest == fmt[at + 2..] && args != []
    ensures Formatted(fmt, args) == fmt[..at] + args[0] + Formatted(rest, args[1..])
  {
    hide Find, Pieces, Weave, Flatten, Surplus, Placeholders;
    var k, text := Placeholders(rest), Weave(Pieces(rest, PLACEHOLDER), args[1..], 0);
    FirstFilled(fmt, args, at, rest, text);
    SurplusShifts(args, k);
    Associates(fmt[..at] + args[0], text, Flatten(Surplus(args[1..], k)));
  }

  lemma {:induction false} ShiftArguments(ps: seq<string>, args: seq<string>, i: nat)
    requires ps != [] && i >= 1 && args != []
    ensures Weave(ps, args, i) == Weave(ps, args[1..], i - 1)
    decreases |ps|
  {
    if |ps| > 1 {
      ShiftArguments(ps[1..], args, i + 1);
      assert Filling(args, i) == Filling(args[1..], i - 1);
    }
  }

  /** Arguments without a placeholder left for them are appended in order. */
  lemma SurplusAppended(fmt: string, args: seq<string>)
    requires Find(fmt, "{}", 0) == None
    ensures Formatted(fmt, args) == fmt + Flatten(args)
  {
    assert Surplus(args, 0) == args;
  }
}
