/**
  Editing a configuration file on disk: the new text goes to a file of its own, which is then
  put in place of the old one.
*/
module ConfigFiles {
  import opened CText
  import opened ConfigEdit
  import opened SafeRename

  const EBADF: int := 9
  const EEXIST: int := 17

  // ---------------------------------------------------------------- what becomes of the file

  /**
    What is put in place of `conf` when the text is written to the open file `temp` by call number
    `call` and installed by the calls behind it. Nobody looks whether the writing works.
  */
  function Placed(files: Files, fate: Fates, call: nat, conf: string, temp: string, text: string): Option<string> {
    var written := if fate(call).Works? then files[temp := text] else files;
    var e := InstallEnding(written, fate, call + 1, temp, conf);
    if e.Refused? then None else Some(Installed(e, written[temp]))
  }

  // The same for an update that starts with call number `call`. A file that cannot be opened counts as empty.
  function AfterUpdate(files: Files, fate: Fates, call: nat, conf: string, temp: string,
                       edit: string -> string): Option<string> {
    if fate(call).Fails? then None
    else
      var file := if conf in files && fate(call + 1).Works? then files[conf] else "";
      Placed(files[temp := ""], fate, call + 2, conf, temp, edit(file))
  }

  // The same for a removal, which gives up when the file cannot be opened.
  function AfterRemoval(files: Files, fate: Fates, call: nat, conf: string, temp: string,
                        edit: string -> string): Option<string> {
    if conf !in files || fate(call).Fails? || fate(call + 1).Fails? then None
    else Placed(files[temp := ""], fate, call + 2, conf, temp, edit(files[conf]))
  }

  // What the last call, which removes the saved text, leaves of it.
  function Kept(fate: Fate, was: string): Option<string> {
    if fate.Works? then None else Some(was)
  }

  /**
    What an edit of `conf`, which held `before`, promises when `placed` is put in its place: success
    exactly when there is something to put there. The old text is whole before the last call, in
    all states from number h on, and after it when there is no success; it is in its place then,
    unless the last call failed. On success the last call removes the old text, if it works.
  */
  ghost predicate Edited(disk: Disk, h: nat, call: nat, before: Option<string>, conf: string, placed: Option<string>, ret: int)
    reads disk
  {
    var save := SaveName(conf);
    && disk.Valid() && disk.UpToDate() && (ret == 0 <==> placed.Some?) && (ret == 0 ==> Content(disk.files, conf) == placed)
    && match before
       case None => ret != 0 && conf !in disk.files
       case Some(was) =>
         && disk.WholeSince(h, 1, conf, save, was)
         && (ret != 0 ==> Disk.Whole(disk.files, conf, save, was) && disk.calls > 0)
         && (ret != 0 && disk.fate(disk.calls - 1).Works? ==> Content(disk.files, conf) == Some(was))
         && (ret == 0 ==> call + 2 < disk.calls && Content(disk.files, save) == Kept(disk.fate(disk.calls - 1), was))
  }

  // Unless another text than the one meant is put in place, every state of an edit is safe.
  lemma EditIsSafe(disk: Disk, h: nat, call: nat, was: string, conf: string, meant: Option<string>, placed: Option<string>, ret: int)
    requires Edited(disk, h, call, Some(was), conf, placed, ret) && (placed.None? || placed == meant) && h <= |disk.history|
    ensures disk.SafeSince(h, conf, SaveName(conf), was, meant)
  {
  }

  // An update whose files are open, `file` being the old text if there is one to read.
  lemma AfterOpening(files: Files, fate: Fates, call: nat, conf: string, temp: string, edit: string -> string, file: Option<string>)
    requires fate(call).Works? && file == if fate(call + 1).Works? then Content(files, conf) else None
    ensures AfterUpdate(files, fate, call, conf, temp, edit) ==
            Placed(files[temp := ""], fate, call + 2, conf, temp, edit(if file.Some? then file.value else ""))
  {
  }

  // With the calls that open the old file and write the new text working, no other text is put in place.
  lemma UpdateIsMeant(files: Files, fate: Fates, call: nat, conf: string, temp: string, edit: string -> string)
    requires conf in files && conf != temp && fate(call + 1).Works? && fate(call + 2).Works?
    requires var text := edit(files[conf]);
             !Lossy(InstallEnding(files[temp := ""][temp := text], fate, call + 3, temp, conf), Some(text))
    ensures var placed := AfterUpdate(files, fate, call, conf, temp, edit);
            placed.None? || placed == Some(edit(files[conf]))
  {
  }

  // For a removal it is enough that the writing works.
  lemma RemovalIsMeant(files: Files, fate: Fates, call: nat, conf: string, temp: string, edit: string -> string)
    requires conf in files && conf != temp && fate(call + 2).Works?
    requires var text := edit(files[conf]);
             !Lossy(InstallEnding(files[temp := ""][temp := text], fate, call + 3, temp, conf), Some(text))
    ensures var placed := AfterRemoval(files, fate, call, conf, temp, edit);
            placed.None? || placed == Some(edit(files[conf]))
  {
  }

  lemma WithoutTemp(files: Files, temp: string, conf: string, text: string, save: string)
    requires temp != conf
    ensures files[temp := ""][conf := text] - {temp} - {save} == files[conf := text] - {temp} - {save}
  {
  }

  // Writes the text to the file `temp`, which is open already, and puts it in place.
  method Finish(disk: Disk, conf: string, temp: string, text: string, ghost placed: Option<string>, ghost h: nat)
    returns (ret: int)
    requires disk.Valid() && temp != conf && temp != SaveName(conf)
    requires placed == Placed(disk.files, disk.fate, disk.calls, conf, temp, text)
    requires conf in disk.files ==> disk.WholeSince(h, 0, conf, SaveName(conf), disk.files[conf])
    modifies disk
    ensures disk.Went() && disk.Untouched({conf, SaveName(conf), temp})
    ensures Edited(disk, h, old(disk.calls), old(Content(disk.files, conf)), conf, placed, ret)
    ensures ret == 0 || ret == EIO
    ensures disk.WorkedFrom(old(disk.calls)) && conf in old(disk.files) ==>
              ret == 0 && disk.files == old(disk.files)[conf := text] - {temp} - {SaveName(conf)}
  {
    var ok := disk.Save(temp, text);
    var err := disk.Install(temp, conf);
    ret := if err != 0 then EIO else 0;
  }

  function Updating(prefix: Option<string>, desc: Option<string>, line: string): string -> string {
    file => UpdateText(file, prefix, desc, line)
  }

  function Removing(prefix: string): string -> string {
    file => RemoveText(file, prefix)
  }

  // Opens the file to write and then the one to read.
  method OpenFiles(disk: Disk, conf: string, temp: string) returns (ok: bool, file: Option<string>)
    requires disk.Valid() && temp != conf
    modifies disk
    ensures disk.Valid() && disk.Went() && disk.UpToDate() && (ok <==> disk.fate(old(disk.calls)).Works?)
    ensures disk.files == if ok then old(disk.files)[temp := ""] else old(disk.files)
    ensures disk.calls == old(disk.calls) + if ok then 2 else 1
    ensures ok ==> file == if disk.fate(old(disk.calls) + 1).Works? then old(Content(disk.files, conf)) else None
    ensures conf in old(disk.files) ==> disk.WholeSince(|old(disk.history)|, 0, conf, SaveName(conf), old(disk.files)[conf])
  {
    file := None;
    ok := disk.Save(temp, "");
    if ok {
      var readable := disk.OpenRead(conf);
      file := if readable then Some(disk.files[conf]) else None;
    }
  }

  /**
    mpss_update_config. A file that does not exist is not created: its text is written, but it
    cannot be put in place for want of an old version.
  */
  method UpdateFile(disk: Disk, conf: string, temp: string, prefix: Option<string>, desc: Option<string>, line: string)
    returns (ret: int)
    requires disk.Valid() && temp != conf && temp != SaveName(conf)
    modifies disk
    ensures var edit := Updating(prefix, desc, line);
            && disk.Went() && disk.Untouched({conf, SaveName(conf), temp})
            && Edited(disk, |old(disk.history)|, old(disk.calls), old(Content(disk.files, conf)), conf,
                      AfterUpdate(old(disk.files), disk.fate, old(disk.calls), conf, temp, edit), ret)
            && (disk.WorkedFrom(old(disk.calls)) && conf in old(disk.files) ==>
                  ret == 0 && disk.files == old(disk.files)[conf := edit(old(disk.files)[conf])] - {temp} - {SaveName(conf)})
    ensures if disk.fate(old(disk.calls)).Fails? then ret == EBADF else ret == 0 || ret == EIO
  {
    var ok, file := OpenFiles(disk, conf, temp);
    if !ok {
      return EBADF;
    }
    var text := UpdateConfig(file, prefix, desc, line);
    ret := FinishUpdate(disk, conf, temp, text, file, Updating(prefix, desc, line), old(disk.files), old(disk.calls), |old(disk.history)|);
  }

  // The part of an update, begun with call number `call` on `files`, that comes after the text was made.
  method FinishUpdate(disk: Disk, conf: string, temp: string, text: string, ghost file: Option<string>,
                      ghost edit: string -> string, ghost files: Files, ghost call: nat, ghost h: nat)
    returns (ret: int)
    requires disk.Valid() && temp != conf && temp != SaveName(conf) && text == edit(if file.Some? then file.value else "")
    requires disk.files == files[temp := ""] && disk.calls == call + 2 && disk.fate(call).Works?
    requires file == if disk.fate(call + 1).Works? then Content(files, conf) else None
    requires conf in files ==> disk.WholeSince(h, 0, conf, SaveName(conf), files[conf])
    modifies disk
    ensures disk.Went() && disk.Untouched({conf, SaveName(conf), temp}) && (ret == 0 || ret == EIO)
    ensures Edited(disk, h, call, Content(files, conf), conf, AfterUpdate(files, disk.fate, call, conf, temp, edit), ret)
    ensures disk.WorkedFrom(call) && conf in files ==>
              ret == 0 && disk.files == files[conf := edit(files[conf])] - {temp} - {SaveName(conf)}
  {
    ghost var placed := AfterUpdate(files, disk.fate, call, conf, temp, edit);
    AfterOpening(files, disk.fate, call, conf, temp, edit, file);
    ret := Finish(disk, conf, temp, text, placed, h);
    WithoutTemp(files, temp, conf, text, SaveName(conf));
  }

  // With nothing but the opening of the old file failing, an update succeeds and its text is lost.
  method LostUpdate(was: string) returns (ret: int, files: Files)
    ensures ret == 0 && Content(files, "conf") == Some("Next 1\n") && Content(files, "conf.orig") == None
  {
    var fate := (k: nat) => if k == 1 then Fails(0) else Works(0);
    var disk := new Disk(map["conf" := was], fate);
    assert SaveName("conf") == "conf.orig";
    assert UpdateText("", Some("Next"), None, "Next 1\n") == "Next 1\n";
    ret := UpdateFile(disk, "conf", "temp", Some("Next"), None, "Next 1\n");
    files := disk.files;
  }

  // Opens the file to read and then the one to write.
  method OpenToRemove(disk: Disk, conf: string, temp: string) returns (ret: int, file: string)
    requires disk.Valid() && temp != conf
    modifies disk
    ensures disk.Valid() && disk.Went() && disk.UpToDate()
    ensures ret == if conf !in old(disk.files) || disk.fate(old(disk.calls)).Fails? then EEXIST
                   else if disk.fate(old(disk.calls) + 1).Fails? then EBADF else 0
    ensures if ret == 0 then disk.files == old(disk.files)[temp := ""] && disk.calls == old(disk.calls) + 2
            else disk.files == old(disk.files) && (conf in old(disk.files) ==> !disk.WorkedFrom(old(disk.calls)))
    ensures ret == 0 ==> file == old(disk.files)[conf]
    ensures conf in old(disk.files) ==> disk.WholeSince(|old(disk.history)|, 0, conf, SaveName(conf), old(disk.files)[conf])
  {
    ret, file := EEXIST, "";
    var ok := disk.OpenRead(conf);
    if ok {
      file := disk.files[conf];
      ok := disk.Save(temp, "");
      ret := if ok then 0 else EBADF;
    }
  }

  // mpss_remove_config
  method RemoveFromFile(disk: Disk, conf: string, temp: string, prefix: string) returns (ret: int)
    requires disk.Valid() && temp != conf && temp != SaveName(conf)
    modifies disk
    ensures var edit := Removing(prefix);
            && disk.Went() && disk.Untouched({conf, SaveName(conf), temp})
            && Edited(disk, |old(disk.history)|, old(disk.calls), old(Content(disk.files, conf)), conf,
                      AfterRemoval(old(disk.files), disk.fate, old(disk.calls), conf, temp, edit), ret)
            && (disk.WorkedFrom(old(disk.calls)) && conf in old(disk.files) ==>
                  ret == 0 && disk.files == old(disk.files)[conf := edit(old(disk.files)[conf])] - {temp} - {SaveName(conf)})
    ensures conf !in old(disk.files) ==> ret == EEXIST && disk.files == old(disk.files)
  {
    var file: string;
    ret, file := OpenToRemove(disk, conf, temp);
    if ret != 0 {
      return;
    }
    var text := RemoveConfig(file, prefix);
    ghost var placed := AfterRemoval(old(disk.files), disk.fate, old(disk.calls), conf, temp, Removing(prefix));
    assert placed == Placed(disk.files, disk.fate, disk.calls, conf, temp, text);
    ret := Finish(disk, conf, temp, text, placed, |old(disk.history)|);
    WithoutTemp(old(disk.files), temp, conf, text, SaveName(conf));
  }
}
