/** The first thing `main` does: a pass over the argument list that puts a space in front of
    every argument that looks like a negative number, so that `argparse` takes it for a value
    rather than an option. The list is changed in place. The test reads `arg[0]` and, only when
    that is '-', `arg[1]`; an empty argument, or one that is just "-", raises `IndexError`,
    which leaves the loop and `main` with the entries before it already rewritten. */
module Argv {
  import opened Text
  import opened Results

  /** Indexing the argument raises: it is empty, or it is "-" and has no second character. */
  predicate Raises(arg: string) {
    |arg| == 0 || (arg[0] == '-' && |arg| == 1)
  }

  /** A '-' followed by a decimal digit: what `argparse` would misread as an option. */
  predicate NeedsPrefix(arg: string) {
    |arg| >= 2 && arg[0] == '-' && IsDigit(arg[1])
  }

  /** The rewrite of one argument that does not raise: the argument itself or the argument
      behind a space. */
  function FixArg(arg: string): (r: string)
    requires !Raises(arg)
    ensures r == arg || r == " " + arg
  {
    if arg[0] == '-' && IsDigit(arg[1]) then " " + arg else arg
  }

  /** An argument changes exactly when it looks like a negative number, and then only by the
      leading space; the result never looks like one, and does not raise. */
  lemma FixArgChanges(arg: string)
    requires !Raises(arg)
    ensures FixArg(arg) != arg <==> NeedsPrefix(arg)
    ensures NeedsPrefix(arg) ==> FixArg(arg) == " " + arg
    ensures !NeedsPrefix(FixArg(arg)) && !Raises(FixArg(arg))
  {
    if NeedsPrefix(arg) {
      assert |FixArg(arg)| == |arg| + 1;
    }
  }

  /** The index of the first argument that raises, if any. */
  function FirstRaising(args: seq<string>): (k: Option<nat>)
    ensures k.None? <==> forall i :: 0 <= i < |args| ==> !Raises(args[i])
    ensures k.Some? ==> k.value < |args| && Raises(args[k.value])
    ensures k.Some? ==> forall i :: 0 <= i < k.value ==> !Raises(args[i])
  {
    if |args| == 0 then None
    else if Raises(args[0]) then Some(0)
    else match FirstRaising(args[1..])
      case None => None
      case Some(j) => Some(j + 1)
  }

  /** How far the loop gets: to the first raising argument, or to the end. */
  function Reached(args: seq<string>): (n: nat)
    ensures n <= |args|
    ensures forall i :: 0 <= i < n ==> !Raises(args[i])
  {
    match FirstRaising(args)
    case None => |args|
    case Some(k) => k
  }

  /** The argument list after the loop: every argument it reached is rewritten, the rest are
      left as they were. */
  function FixArguments(args: seq<string>): (r: seq<string>)
    ensures |r| == |args|
    ensures forall i :: Reached(args) <= i < |args| ==> r[i] == args[i]
  {
    var n := Reached(args);
    seq(|args|, i requires 0 <= i < |args| => if i < n then FixArg(args[i]) else args[i])
  }

  /** The pass over the argument list, in place and in order: each argument that looks like a
      negative number gets a leading space. The result says at which index `IndexError` was
      raised, if it was. */
  method FixNegativeArguments(argv: array<string>) returns (failedAt: Option<nat>)
    modifies argv
    ensures failedAt == FirstRaising(old(argv[..]))
    ensures argv[..] == FixArguments(old(argv[..]))
  {
    ghost var args := argv[..];
    var i := 0;
    while i < argv.Length
      invariant 0 <= i <= argv.Length
      invariant forall j :: 0 <= j < i ==> !Raises(args[j])
      invariant forall j :: 0 <= j < i ==> argv[j] == FixArg(args[j])
      invariant forall j :: i <= j < argv.Length ==> argv[j] == args[j]
    {
      var arg := argv[i];
      if |arg| == 0 || (arg[0] == '-' && |arg| == 1) {
        failedAt := Some(i);
        FirstRaisingUnique(args, failedAt);
        FixedUpTo(args, argv[..], i);
        return;
      }
      if arg[0] == '-' && IsDigit(arg[1]) {
        argv[i] := " " + arg;
      }
      i := i + 1;
    }
    failedAt := None;
    FixedUpTo(args, argv[..], i);
  }

  /** A list whose entries before `Reached(args)` are rewritten and whose others are as in
      `args` is the list after the loop. */
  lemma FixedUpTo(args: seq<string>, current: seq<string>, n: nat)
    requires n == Reached(args) && |current| == |args|
    requires forall j :: 0 <= j < n ==> current[j] == FixArg(args[j])
    requires forall j :: n <= j < |args| ==> current[j] == args[j]
    ensures current == FixArguments(args)
  {
  }

  /** Exactly the arguments before the first raising one that look like negative numbers are
      changed. */
  lemma FixArgumentsChanges(args: seq<string>, i: nat)
    requires i < |args|
    ensures FixArguments(args)[i] != args[i] <==> i < Reached(args) && NeedsPrefix(args[i])
    ensures FixArguments(args)[i] != args[i] ==> FixArguments(args)[i] == " " + args[i]
  {
    if i < Reached(args) {
      FixArgChanges(args[i]);
    }
  }

  /** Running the fix a second time changes nothing and stops at the same place. */
  lemma FixArgumentsIdempotent(args: seq<string>)
    ensures FirstRaising(FixArguments(args)) == FirstRaising(args)
    ensures FixArguments(FixArguments(args)) == FixArguments(args)
  {
    var r := FixArguments(args);
    var n := Reached(args);
    forall i | 0 <= i < n
      ensures !Raises(r[i]) && !NeedsPrefix(r[i]) && FixArg(r[i]) == r[i]
    {
      FixArgChanges(args[i]);
    }
    if FirstRaising(args).Some? {
      assert r[n] == args[n];
    }
    FirstRaisingUnique(r, FirstRaising(args));
  }

  /** The first raising index is determined by the two facts that characterise it. */
  lemma FirstRaisingUnique(args: seq<string>, k: Option<nat>)
    requires k.None? ==> forall i :: 0 <= i < |args| ==> !Raises(args[i])
    requires k.Some? ==> (k.value < |args| && Raises(args[k.value])
                          && forall i :: 0 <= i < k.value ==> !Raises(args[i]))
    ensures FirstRaising(args) == k
  {
  }

  /** The arguments that raise are exactly the empty one and a lone "-". */
  lemma RaisesExactly(arg: string)
    ensures Raises(arg) <==> arg == "" || arg == "-"
  {
    if |arg| == 1 && arg[0] == '-' {
      assert arg == [arg[0]];
    }
  }

  /** The loop stops at the first raising argument: that one and everything after it are
      left as they were. */
  lemma StopsAtRaising(before: seq<string>, arg: string, after: seq<string>)
    requires forall i :: 0 <= i < |before| ==> !Raises(before[i])
    requires Raises(arg)
    ensures FirstRaising(before + [arg] + after) == Some(|before|)
    ensures FixArguments(before + [arg] + after)[|before|..] == [arg] + after
  {
    var args := before + [arg] + after;
    Pieces(before, arg, after);
    FirstRaisingUnique(args, Some(|before|));
    KeepsFrom(args, |before|);
  }

  /** Where the pieces of `before + [arg] + after` stand. */
  lemma Pieces(before: seq<string>, arg: string, after: seq<string>)
    ensures var args := before + [arg] + after;
      args[|before|] == arg && args[|before|..] == [arg] + after
      && forall i :: 0 <= i < |before| ==> args[i] == before[i]
  {
    var args := before + [arg] + after;
    assert args[|before|..] == [arg] + after;
  }

  /** The entries from where the loop stops on are left as they were. */
  lemma KeepsFrom(args: seq<string>, n: nat)
    requires n == Reached(args)
    ensures FixArguments(args)[n..] == args[n..]
  {
    var r := FixArguments(args);
    assert forall j :: 0 <= j < |args| - n ==> r[n..][j] == r[n + j] == args[n + j];
  }
}
