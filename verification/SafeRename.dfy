/**
  Putting a new version of a file in place: the old version is kept under a second name until
  the new one is there, by renaming or, when that fails, by copying. Any system call may fail.
*/
module SafeRename {
  import opened CText

  type Files = map<string, string>

  // What becomes of a system call. A failing write may still have written something.
  datatype Fate = Works(amount: nat) | Fails(partial: nat)

  type Fates = nat -> Fate

  const EIO: int := 5
  const COPY_BUFFER: nat := 4096

  function Content(files: Files, name: string): Option<string> {
    if name in files then Some(files[name]) else None
  }

  function SaveName(output: string): (save: string)
    ensures save != output
  {
    assert |output + ".orig"| == |output| + 5;
    output + ".orig"
  }

  // ---------------------------------------------------------------- how it ends

  // The new version is in place, or its first bytes are and pass for it, or the old one is kept.
  datatype Ending = InPlace | Truncated(copied: nat) | Refused(writing: bool)

  // What is returned: a refusal while writing has a number of its own.
  function ReturnCode(e: Ending): int {
    match e
    case Refused(writing) => if writing then 5 else 1
    case _ => 0
  }

  // How many bytes a read gets when `left` are left.
  function ReadAmount(amount: nat, left: nat): (n: nat)
    ensures n <= left && n <= COPY_BUFFER && (n == 0 <==> left == 0)
  {
    var n := if amount < left then amount else left;
    if n == 0 then (if left > 0 then 1 else 0) else if n > COPY_BUFFER then COPY_BUFFER else n
  }

  /**
    Copying `size` bytes of which `pos` are copied, when the next call has number `call`: reads and
    writes take turns. A read that fails passes for the end of the file.
  */
  function CopyEnding(fate: Fates, call: nat, size: nat, pos: nat): (e: Ending)
    requires pos <= size
    ensures e.Truncated? ==> pos <= e.copied <= size
    decreases size - pos
  {
    match fate(call)
    case Fails(_) => Truncated(pos)
    case Works(amount) =>
      var n := ReadAmount(amount, size - pos);
      if n == 0 then InPlace
      else if fate(call + 1).Fails? then Refused(true)
      else CopyEnding(fate, call + 2, size, pos + n)
  }

  lemma CopyStep(fate: Fates, call: nat, size: nat, pos: nat, n: nat)
    requires pos <= size && fate(call).Works? && n == ReadAmount(fate(call).amount, size - pos) && n > 0
    ensures CopyEnding(fate, call, size, pos) ==
            if fate(call + 1).Fails? then Refused(true) else CopyEnding(fate, call + 2, size, pos + n)
  {
  }

  // Opening the new version, call number `call`, to copy it.
  function OverEnding(fate: Fates, call: nat, newer: Option<string>): (e: Ending)
    ensures e.Truncated? ==> newer.Some? && e.copied <= |newer.value|
  {
    if newer.None? || fate(call).Fails? || fate(call + 1).Fails? || fate(call + 2).Fails? then Refused(false)
    else CopyEnding(fate, call + 3, |newer.value|, 0)
  }

  // Renaming the new version, call number `call`, or else copying it.
  function PlaceEnding(fate: Fates, call: nat, newer: Option<string>): (e: Ending)
    ensures e.Truncated? ==> newer.Some? && e.copied <= |newer.value|
  {
    if newer.Some? && fate(call).Works? then InPlace else OverEnding(fate, call + 1, newer)
  }

  // The number of the call that renames the old version: an old backup is removed before it.
  function BackupCall(files: Files, fate: Fates, call: nat, output: string): nat {
    call + if SaveName(output) in files && fate(call).Works? then 2 else 1
  }

  /**
    How the replacement of `output` by `input` ends, told from the files at its start and the
    fates of the calls from number `call` on.
  */
  function InstallEnding(files: Files, fate: Fates, call: nat, input: string, output: string): (e: Ending)
    ensures !e.Refused? ==> input in files && output in files
    ensures e.Truncated? ==> e.copied <= |files[input]|
  {
    var backup := BackupCall(files, fate, call, output);
    if output !in files || fate(backup).Fails? then Refused(false)
    else PlaceEnding(fate, backup + 1, Content(files, input))
  }

  // What is under the new version's name in the end.
  function Installed(e: Ending, contents: string): string {
    if e.Truncated? && e.copied < |contents| then contents[..e.copied] else contents
  }

  // The new version lost its end.
  predicate Lossy(e: Ending, newer: Option<string>) {
    e.Truncated? && newer.Some? && e.copied < |newer.value|
  }

  lemma WrittenAgain(files: Files, name: string, a: string, b: string)
    ensures files[name := a][name := b] == files[name := b]
  {
  }

  // ---------------------------------------------------------------- the disk

  class Disk {
    var files: Files
    var calls: nat
    // How each successive call fares.
    const fate: Fates
    // The files after every call so far.
    ghost var history: seq<Files>
    // The numbers of the calls that were reads.
    ghost var readCalls: set<nat>

    constructor (files: Files, fate: Fates)
      ensures this.files == files && this.fate == fate && calls == 0 && history == [] && readCalls == {} && Valid()
    {
      this.files, this.fate, calls, history, readCalls := files, fate, 0, [], {};
    }

    ghost predicate Valid()
      reads this
    {
      forall k :: k in readCalls ==> k < calls
    }

    // One more call was made, which was no read, and left the files as they are now.
    twostate predicate Called()
      reads this
    {
      calls == old(calls) + 1 && history == old(history) + [files] && readCalls == old(readCalls)
    }

    // Some calls were made.
    twostate predicate Went()
      reads this
    {
      && old(calls) <= calls && old(history) <= history && old(readCalls) <= readCalls
      && forall k :: k in readCalls && k !in old(readCalls) ==> old(calls) <= k < calls
    }

    // A read failed among the calls from number n on.
    ghost predicate ReadFailed(n: nat)
      reads this
    {
      exists k :: k in readCalls && n <= k < calls && fate(k).Fails?
    }

    // No call from number n on failed.
    ghost predicate WorkedFrom(n: nat)
      reads this
    {
      forall k {:trigger fate(k)} :: n <= k < calls ==> fate(k).Works?
    }

    // No call from number n on failed, except perhaps call number m.
    ghost predicate WorkedBut(n: nat, m: nat)
      reads this
    {
      forall k {:trigger fate(k)} :: n <= k < calls && k != m ==> fate(k).Works?
    }

    method Stat(name: string) returns (ok: bool)
      modifies this
      ensures Called() && files == old(files)
      ensures ok <==> name in files && fate(old(calls)).Works?
    {
      ok := name in files && fate(calls).Works?;
      calls, history := calls + 1, history + [files];
    }

    method Unlink(name: string) returns (ok: bool)
      modifies this
      ensures Called() && files == if ok then old(files) - {name} else old(files)
      ensures ok <==> name in old(files) && fate(old(calls)).Works?
    {
      ok := name in files && fate(calls).Works?;
      if ok {
        files := files - {name};
      }
      calls, history := calls + 1, history + [files];
    }

    // Atomic: the new name has the old contents, or nothing changed.
    method Rename(from: string, to: string) returns (ok: bool)
      requires from != to
      modifies this
      ensures ok <==> from in old(files) && fate(old(calls)).Works?
      ensures Called() && files == if ok then old(files)[to := old(files)[from]] - {from} else old(files)
    {
      ok := from in files && fate(calls).Works?;
      if ok {
        files := files[to := files[from]] - {from};
      }
      calls, history := calls + 1, history + [files];
    }

    method OpenRead(name: string) returns (ok: bool)
      modifies this
      ensures Called() && files == old(files)
      ensures ok <==> name in files && fate(old(calls)).Works?
    {
      ok := name in files && fate(calls).Works?;
      calls, history := calls + 1, history + [files];
    }

    method Fstat() returns (ok: bool)
      modifies this
      ensures Called() && files == old(files) && (ok <==> fate(old(calls)).Works?)
    {
      ok := fate(calls).Works?;
      calls, history := calls + 1, history + [files];
    }

    // O_CREAT | O_EXCL
    method Create(name: string) returns (ok: bool)
      modifies this
      ensures Called() && files == if ok then old(files)[name := ""] else old(files)
      ensures ok <==> name !in old(files) && fate(old(calls)).Works?
    {
      ok := name !in files && fate(calls).Works?;
      if ok {
        files := files[name := ""];
      }
      calls, history := calls + 1, history + [files];
    }

    // The number of bytes read from offset pos of a file of `size` bytes, or -1.
    method Read(size: nat, pos: nat) returns (n: int)
      requires pos <= size
      modifies this
      ensures calls == old(calls) + 1 && history == old(history) + [files] && readCalls == old(readCalls) + {old(calls)}
      ensures files == old(files)
      ensures n == match fate(old(calls)) case Fails(_) => -1 case Works(amount) => ReadAmount(amount, size - pos)
    {
      match fate(calls) {
        case Fails(_) => n := -1;
        case Works(amount) => n := ReadAmount(amount, size - pos);
      }
      readCalls := readCalls + {calls};
      calls, history := calls + 1, history + [files];
    }

    // Appends to a file that is being written.
    method Write(name: string, data: string) returns (ok: bool)
      requires name in files
      modifies this
      ensures Called() && files.Keys == old(files).Keys && forall k :: k in files && k != name ==> files[k] == old(files)[k]
      ensures ok ==> files[name] == old(files)[name] + data
      ensures ok <==> fate(old(calls)).Works?
    {
      match fate(calls) {
        case Works(_) =>
          ok := true;
          files := files[name := files[name] + data];
        case Fails(partial) =>
          ok := false;
          files := files[name := files[name] + if partial < |data| then data[..partial] else data];
      }
      calls, history := calls + 1, history + [files];
    }

    // A file that is written from its start and closed again.
    method Save(name: string, text: string) returns (ok: bool)
      modifies this
      ensures Called() && files == if ok then old(files)[name := text] else old(files)
      ensures ok <==> fate(old(calls)).Works?
    {
      ok := fate(calls).Works?;
      if ok {
        files := files[name := text];
      }
      calls, history := calls + 1, history + [files];
    }

    // The old version is whole under one of its two names.
    static predicate Whole(files: Files, output: string, save: string, was: string) {
      Content(files, output) == Some(was) || Content(files, save) == Some(was)
    }

    // The old version is whole under one of its two names, or the new version is in place.
    static predicate Safe(files: Files, output: string, save: string, was: string, newer: Option<string>) {
      Whole(files, output, save, was) || (newer.Some? && Content(files, output) == newer)
    }

    // With the old version whole until the last call, it is enough to look at the state after that.
    static lemma SafeToTheEnd(states: seq<Files>, n: nat, output: string, save: string, was: string, newer: Option<string>)
      requires n < |states| && Safe(states[|states| - 1], output, save, was, newer)
      requires forall i {:trigger states[i]} :: n <= i < |states| - 1 ==> Whole(states[i], output, save, was)
      ensures forall i :: n <= i < |states| ==> Safe(states[i], output, save, was, newer)
    {
    }

    // Every state since call number n was safe.
    ghost predicate SafeSince(n: nat, output: string, save: string, was: string, newer: Option<string>)
      reads this
    {
      n <= |history| && forall i :: n <= i < |history| ==> Safe(history[i], output, save, was, newer)
    }

    // The old version was whole after each of the calls that were made, except perhaps the last m.
    twostate predicate Guarded(output: string, save: string, was: string, m: nat)
      reads this
    {
      forall i {:trigger history[i]} :: |old(history)| <= i < |history| - m ==> Whole(history[i], output, save, was)
    }

    // The old version was whole in each of the states from number h on, except perhaps the last m.
    ghost predicate WholeSince(h: nat, m: nat, output: string, save: string, was: string)
      reads this
    {
      forall i {:trigger history[i]} :: h <= i < |history| - m ==> Whole(history[i], output, save, was)
    }

    // The last state recorded is the present one.
    ghost predicate UpToDate()
      reads this
    {
      history != [] && history[|history| - 1] == files
    }

    // When the last call, which renames the old version back, worked, that is in its place again.
    ghost predicate Restored(output: string, save: string, was: string)
      reads this
    {
      && Whole(files, output, save, was) && calls > 0
      && (fate(calls - 1).Works? ==> Content(files, output) == Some(was) && save !in files)
    }

    // Files of other names are the same.
    static ghost predicate SameBut(files: Files, base: Files, names: set<string>) {
      forall k {:trigger k in names} :: k !in names ==> Content(files, k) == Content(base, k)
    }

    twostate predicate Untouched(names: set<string>)
      reads this
    {
      SameBut(files, old(files), names)
    }

    // Restores the old version; this may fail, since it stays under the second name.
    method Restore(output: string, save: string, ghost was: string)
      requires output != save && Content(files, save) == Some(was)
      modifies this
      ensures Called() && UpToDate() && Restored(output, save, was) && Guarded(output, save, was, 0)
      ensures Untouched({output, save})
    {
      var ok := Rename(save, output);
    }

    // Opens the new version and creates the file it is to be copied to.
    method OpenBoth(input: string, output: string, ghost save: string, ghost was: string) returns (ok: bool)
      requires output != save && output !in files && Content(files, save) == Some(was)
      modifies this
      ensures Went() && readCalls == old(readCalls) && Guarded(output, save, was, 0)
      ensures files == if ok then old(files)[output := ""] else old(files)
      ensures ok <==> input in old(files) && fate(old(calls)).Works? && fate(old(calls) + 1).Works? && fate(old(calls) + 2).Works?
      ensures ok ==> calls == old(calls) + 3
      ensures !ok && input in old(files) ==> !WorkedFrom(old(calls))
    {
      ok := OpenRead(input);
      if ok {
        ok := Fstat();
        if ok {
          ok := Create(output);
        }
      }
    }

    // Copies the new version by hand.
    method CopyOver(input: string, output: string, save: string, ghost was: string, ghost e: Ending) returns (ret: int)
      requires Valid() && input != output && input != save && output != save && output !in files
      requires Content(files, save) == Some(was) && e == OverEnding(fate, calls, Content(files, input))
      modifies this
      ensures Went() && UpToDate() && Guarded(output, save, was, 0)
      ensures if ret == 0 then Content(files, save) == Some(was) && old(calls) + 5 <= calls else Restored(output, save, was)
      ensures Untouched(if ret == 0 then {input, output} else {output, save})
      ensures ret == ReturnCode(e) && (e.Truncated? <==> ReadFailed(old(calls)))
      ensures ret == 0 ==> input in old(files) && Content(files, output) == Some(Installed(e, old(files)[input]))
      ensures input in old(files) && WorkedFrom(old(calls)) ==>
                e.InPlace? && files == old(files)[output := old(files)[input]] - {input}
    {
      ret := 1;
      var contents := if input in files then files[input] else "";
      var ok := OpenBoth(input, output, save, was);
      if !ok {
        Restore(output, save, was);
        return;
      }
      ghost var first := calls;
      ret := CopyAndDrop(contents, input, output, save, was, e);
      assert ReadFailed(old(calls)) <==> ReadFailed(first);
    }

    // Copies the contents to the new file, and removes the input after that.
    method CopyAndDrop(contents: string, input: string, output: string, save: string, ghost was: string,
                       ghost e: Ending) returns (ret: int)
      requires Valid() && input != output && input != save && output != save
      requires Content(files, output) == Some("") && Content(files, save) == Some(was)
      requires e == CopyEnding(fate, calls, |contents|, 0)
      modifies this
      ensures Went() && UpToDate() && Guarded(output, save, was, 0)
      ensures if ret == 0 then Content(files, save) == Some(was) && old(calls) + 2 <= calls else Restored(output, save, was)
      ensures Untouched(if ret == 0 then {input, output} else {output, save})
      ensures ret == ReturnCode(e) && (e.Truncated? <==> ReadFailed(old(calls)))
      ensures ret == 0 ==> Content(files, output) == Some(Installed(e, contents))
      ensures WorkedFrom(old(calls)) ==> e.InPlace? && files == old(files)[output := contents] - {input}
    {
      ret := CopyLoop(contents, output, save, was, e);
      if ret == 0 {
        var ok := Unlink(input);
      }
    }

    // Reads into the buffer and writes what was read.
    method CopyTurn(contents: string, pos: nat, output: string, ghost save: string, ghost was: string)
      returns (got: int, ok: bool)
      requires pos <= |contents| && output != save && Content(files, save) == Some(was)
      requires Content(files, output) == Some(contents[..pos])
      modifies this
      ensures Went() && UpToDate() && readCalls == old(readCalls) + {old(calls)} && Guarded(output, save, was, 0)
      ensures Content(files, save) == Some(was) && pos + got <= |contents| && (got < 0 <==> fate(old(calls)).Fails?)
      ensures ok && got > 0 ==> files == old(files)[output := contents[..pos + got]]
      ensures ok && got <= 0 ==> files == old(files) && (got == 0 ==> pos == |contents|)
      ensures old(calls) < calls && (!ok ==> got > 0 && calls == old(calls) + 2 && fate(old(calls) + 1).Fails?)
      ensures Untouched({output})
      ensures CopyEnding(fate, old(calls), |contents|, pos) ==
              if !ok then Refused(true) else if got < 0 then Truncated(pos) else if got == 0 then InPlace
              else CopyEnding(fate, calls, |contents|, pos + got)
    {
      ok := true;
      got := Read(|contents|, pos);
      if got > 0 {
        CopyStep(fate, old(calls), |contents|, pos, got);
        ok := Write(output, contents[pos..pos + got]);
        assert contents[..pos] + contents[pos..pos + got] == contents[..pos + got];
      }
    }

    // A turn of the loop, and the way back when the writing failed.
    method CopyOrRestore(contents: string, pos: nat, output: string, save: string, ghost was: string, ghost e: Ending)
      returns (got: int, ok: bool)
      requires pos <= |contents| && output != save && Content(files, save) == Some(was)
      requires Content(files, output) == Some(contents[..pos]) && e == CopyEnding(fate, calls, |contents|, pos)
      modifies this
      ensures Went() && UpToDate() && readCalls == old(readCalls) + {old(calls)} && Guarded(output, save, was, 0)
      ensures old(calls) < calls && pos + got <= |contents| && (got < 0 <==> fate(old(calls)).Fails?)
      ensures if ok then Content(files, save) == Some(was) else got > 0 && Restored(output, save, was) && !WorkedFrom(old(calls))
      ensures Untouched(if ok then {output} else {output, save})
      ensures ok ==> files == if got > 0 then old(files)[output := contents[..pos + got]] else old(files)
      ensures ok && got == 0 ==> pos == |contents|
      ensures e == if !ok then Refused(true) else if got < 0 then Truncated(pos) else if got == 0 then InPlace
                   else CopyEnding(fate, calls, |contents|, pos + got)
    {
      got, ok := CopyTurn(contents, pos, output, save, was);
      if !ok {
        Restore(output, save, was);
      }
    }

    // The first pos bytes are copied, and no read failed since call number n, when the files were `base`.
    ghost predicate Copied(base: Files, n: nat, contents: string, pos: nat, output: string, save: string, was: string)
      reads this
    {
      && pos <= |contents| && n <= calls && !ReadFailed(n)
      && files == base[output := contents[..pos]] && Content(files, save) == Some(was)
    }

    // Since call number n a read failed exactly if the copy is cut short, and none at all only if it is whole.
    ghost predicate Ended(n: nat, e: Ending)
      reads this
    {
      (e.Truncated? <==> ReadFailed(n)) && (WorkedFrom(n) ==> e.InPlace?)
    }

    // One turn more.
    method CopyMore(contents: string, pos: nat, output: string, save: string, ghost was: string, ghost e: Ending,
                    ghost base: Files, ghost n: nat, ghost h: nat)
      returns (got: int, ok: bool)
      requires output != save && Copied(base, n, contents, pos, output, save, was)
      requires Valid() && e == CopyEnding(fate, calls, |contents|, pos) && WholeSince(h, 0, output, save, was)
      modifies this
      ensures Went() && UpToDate() && WholeSince(h, 0, output, save, was) && old(calls) < calls && pos + got <= |contents|
      ensures !ok ==> e == Refused(true) && Ended(n, e) && Restored(output, save, was) && SameBut(files, base, {output, save})
      ensures ok && got > 0 ==>
                Copied(base, n, contents, pos + got, output, save, was) && e == CopyEnding(fate, calls, |contents|, pos + got)
      ensures ok && got <= 0 ==> !e.Refused? && Ended(n, e) && files == base[output := Installed(e, contents)]
    {
      got, ok := CopyOrRestore(contents, pos, output, save, was, e);
      if ok && got > 0 {
        WrittenAgain(base, output, contents[..pos], contents[..pos + got]);
      }
      assert pos == |contents| ==> contents[..pos] == contents;
    }

    // Reads and writes until the end of the file, or until either fails.
    method CopyLoop(contents: string, output: string, save: string, ghost was: string, ghost e: Ending) returns (ret: int)
      requires Valid() && output != save && Content(files, output) == Some("") && Content(files, save) == Some(was)
      requires e == CopyEnding(fate, calls, |contents|, 0)
      modifies this
      ensures Went() && UpToDate() && Guarded(output, save, was, 0) && old(calls) < calls
      ensures ret != 0 ==> Restored(output, save, was) && Untouched({output, save})
      ensures ret == ReturnCode(e) && Ended(old(calls), e)
      ensures ret == 0 ==> files == old(files)[output := Installed(e, contents)]
    {
      var pos := 0;
      assert files[output := contents[..pos]] == files;
      while true
        invariant Went() && WholeSince(|old(history)|, 0, output, save, was)
        invariant Copied(old(files), old(calls), contents, pos, output, save, was)
        invariant e == CopyEnding(fate, calls, |contents|, pos)
        decreases |contents| - pos
      {
        var got, ok := CopyMore(contents, pos, output, save, was, e, old(files), old(calls), |old(history)|);
        if !ok {
          return EIO;
        }
        if got <= 0 {
          break;
        }
        pos := pos + got;
      }
      ret := 0;
    }

    // The new version goes to the free place.
    method RenameOrCopy(input: string, output: string, save: string, ghost was: string, ghost e: Ending) returns (ret: int)
      requires Valid() && input != output && input != save && output != save && output !in files
      requires Content(files, save) == Some(was) && e == PlaceEnding(fate, calls, Content(files, input))
      modifies this
      ensures Went() && UpToDate() && |old(history)| < |history| && Guarded(output, save, was, 0)
      ensures if ret == 0 then Content(files, save) == Some(was) else Restored(output, save, was)
      ensures Untouched(if ret == 0 then {input, output} else {output, save})
      ensures ret == ReturnCode(e) && (e.Truncated? <==> ReadFailed(old(calls)))
      ensures ret == 0 ==>
                && input in old(files) && Content(files, output) == Some(Installed(e, old(files)[input]))
                && old(calls) + (if e.Truncated? then 6 else 1) <= calls
      ensures input in old(files) && WorkedFrom(old(calls) + 1) ==>
                e.InPlace? && files == old(files)[output := old(files)[input]] - {input}
    {
      ret := 0;
      var ok := Rename(input, output);
      if !ok {
        ghost var first := calls;
        ret := CopyOver(input, output, save, was, e);
        assert ReadFailed(old(calls)) <==> ReadFailed(first);
      }
    }

    // The new version goes to the free place, and the backup away when it is there.
    method PutInPlace(input: string, output: string, save: string, ghost was: string, ghost e: Ending, ghost h: nat)
      returns (ret: int)
      requires Valid() && input != output && input != save && output != save && output !in files
      requires Content(files, save) == Some(was) && e == PlaceEnding(fate, calls, Content(files, input))
      requires h <= |history| && WholeSince(h, 0, output, save, was)
      modifies this
      ensures Went() && UpToDate() && |old(history)| < |history| && WholeSince(h, 1, output, save, was)
      ensures ret != 0 ==> Restored(output, save, was)
      ensures Untouched(if ret == 0 then {input, output, save} else {output, save})
      ensures ret == ReturnCode(e) && (e.Truncated? <==> ReadFailed(old(calls)))
      ensures ret == 0 ==>
                && input in old(files) && Content(files, output) == Some(Installed(e, old(files)[input]))
                && old(calls) + (if e.Truncated? then 7 else 2) <= calls
                && Content(files, save) == (if fate(calls - 1).Works? then None else Some(was))
      ensures input in old(files) && WorkedFrom(old(calls) + 1) ==>
                e.InPlace? && files == old(files)[output := old(files)[input]] - {input} - {save}
    {
      ret := RenameOrCopy(input, output, save, was, e);
      if ret == 0 {
        var ok := Unlink(save);
      }
    }

    // The same, with every state on the way safe.
    method PutSafely(input: string, output: string, save: string, ghost was: string, ghost e: Ending, ghost h: nat)
      returns (ret: int)
      requires Valid() && input != output && input != save && output != save && output !in files
      requires Content(files, save) == Some(was) && e == PlaceEnding(fate, calls, Content(files, input))
      requires h <= |history| && WholeSince(h, 0, output, save, was)
      modifies this
      ensures Went() && UpToDate() && |old(history)| < |history| && WholeSince(h, 1, output, save, was)
      ensures ret != 0 ==> Restored(output, save, was)
      ensures Untouched(if ret == 0 then {input, output, save} else {output, save})
      ensures ret == ReturnCode(e) && (e.Truncated? <==> ReadFailed(old(calls)))
      ensures ret == 0 ==>
                && input in old(files) && Content(files, output) == Some(Installed(e, old(files)[input]))
                && old(calls) + (if e.Truncated? then 7 else 2) <= calls
                && Content(files, save) == (if fate(calls - 1).Works? then None else Some(was))
      ensures input in old(files) && WorkedFrom(old(calls) + 1) ==>
                e.InPlace? && files == old(files)[output := old(files)[input]] - {input} - {save}
      ensures !Lossy(e, old(Content(files, input))) ==> SafeSince(h, output, save, was, old(Content(files, input)))
    {
      ret := PutInPlace(input, output, save, was, e, h);
      SafeInTheEnd(h, output, save, was, old(Content(files, input)));
    }

    // Removes an older backup and makes the old version the backup.
    method MoveAway(output: string, save: string) returns (ok: bool)
      requires save == SaveName(output)
      modifies this
      ensures Went() && UpToDate() && |old(history)| < |history| && readCalls == old(readCalls)
      ensures calls == BackupCall(old(files), fate, old(calls), output) + 1
      ensures ok <==> output in old(files) && fate(calls - 1).Works?
      ensures ok ==> files == old(files)[save := old(files)[output]] - {output}
      ensures !ok ==>
                files == if fate(old(calls)).Works? && fate(old(calls) + 1).Works? then old(files) - {save} else old(files)
      ensures output in old(files) ==>
                WholeSince(|old(history)|, 0, output, save, old(files)[output]) && Whole(files, output, save, old(files)[output])
      ensures Untouched({output, save})
    {
      ok := Stat(save);
      if ok {
        ok := Unlink(save);
      }
      ok := Rename(output, save);
    }

    /**
      mpssut_rename. It succeeds exactly when the ending told from the fates of its calls is not a
      refusal. With an output there at the start, the old version is whole under one of its two
      names or the new one is in place after every single system call, unless a read fails before
      the whole new version was copied: the call reports success then and leaves its beginning.
    */
    method Install(input: string, output: string) returns (ret: int)
      requires Valid() && input != output && input != SaveName(output)
      modifies this
      ensures Went() && Valid() && UpToDate() && |old(history)| < |history| && old(calls) < calls
      ensures Untouched(if ret == 0 then {input, output, SaveName(output)} else {output, SaveName(output)})
      ensures var e, save := InstallEnding(old(files), fate, old(calls), input, output), SaveName(output);
              var newer := old(Content(files, input));
              && ret == ReturnCode(e) && (e.Truncated? <==> ReadFailed(old(calls)))
              && (ret == 0 ==>
                    && output in old(files) && input in old(files)
                    && Content(files, output) == Some(Installed(e, old(files)[input]))
                    && old(calls) + (if e.Truncated? then 9 else 4) <= calls
                    && Content(files, save) == (if fate(calls - 1).Works? then None else Some(old(files)[output])))
              && (output in old(files) ==>
                    var was := old(files)[output];
                    && (ret != 0 ==> Whole(files, output, save, was) && (fate(calls - 1).Works? ==> Content(files, output) == Some(was)))
                    && WholeSince(|old(history)|, 1, output, save, was)
                    && (!Lossy(e, newer) ==> SafeSince(|old(history)|, output, save, was, newer)))
      ensures output !in old(files) ==>
                && ret == 1
                && files == if fate(old(calls)).Works? && fate(old(calls) + 1).Works? then old(files) - {SaveName(output)} else old(files)
      ensures var second := BackupCall(old(files), fate, old(calls), output) + 1;
              output in old(files) && input in old(files) && WorkedBut(old(calls), second) ==>
                ret == 0 && files == old(files)[output := old(files)[input]] - {input} - {SaveName(output)}
    {
      var save := SaveName(output);
      var ok := MoveAway(output, save);
      if !ok {
        return 1;
      }
      ghost var first, e := calls, InstallEnding(old(files), fate, old(calls), input, output);
      ret := PutSafely(input, output, save, old(files)[output], e, |old(history)|);
      assert ReadFailed(old(calls)) <==> ReadFailed(first);
    }

    lemma SafeInTheEnd(h: nat, output: string, save: string, was: string, newer: Option<string>)
      requires UpToDate() && h < |history| && WholeSince(h, 1, output, save, was)
      ensures Safe(files, output, save, was, newer) ==> SafeSince(h, output, save, was, newer)
    {
      if Safe(files, output, save, was, newer) {
        SafeToTheEnd(history, h, output, save, was, newer);
      }
    }
  }

  // Success that leaves neither version: renaming and then the first read fail, and nothing else does.
  method LossySuccess() returns (ret: int, files: Files)
    ensures ret == 0 && Content(files, "conf") == Some("") && Content(files, "conf.orig") == None
  {
    var fate := (k: nat) => if k == 2 || k == 6 then Fails(0) else Works(0);
    var disk := new Disk(map["conf" := "old", "temp" := "new"], fate);
    assert SaveName("conf") == "conf.orig";
    assert InstallEnding(disk.files, fate, 0, "temp", "conf") == Truncated(0);
    ret := disk.Install("temp", "conf");
    files := disk.files;
  }
}
