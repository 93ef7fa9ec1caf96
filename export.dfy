/** The export step of the Dovecot-to-mbox converter: `convert_maildir`
    copying one Maildir into a new mbox file with its progress lines, and
    the single-worker loop of `main` over the unique mailboxes. */
module Export {
  import opened Mailboxes
  import opened Progress
  import opened Text

  /** The raw text of one message. */
  type Message = string

  /** One conversion `main` asks for: the output file and the messages of
      the mailbox. */
  datatype Job = Job(file: string, messages: seq<Message>)

  /** The jobs of the mailbox lines, in order. */
  function Jobs(dest: string, info: seq<MailboxInfo>, maildirOf: string -> seq<Message>): (jobs: seq<Job>)
    ensures |jobs| == |info|
    ensures forall i :: 0 <= i < |info| ==> jobs[i] == Job(OutputFile(dest, info[i].name), maildirOf(info[i].path))
  {
    seq(|info|, i requires 0 <= i < |info| => Job(OutputFile(dest, info[i].name), maildirOf(info[i].path)))
  }

  /** What the export directory holds after a sequence of conversions:
      each job's file is created with its messages unless a file of that
      name is already there. */
  function Exported(boxes: map<string, seq<Message>>, jobs: seq<Job>): map<string, seq<Message>>
  {
    if jobs == [] then boxes
    else
      var n := |jobs| - 1;
      var before := Exported(boxes, jobs[..n]);
      if jobs[n].file in before then before else before[jobs[n].file := jobs[n].messages]
  }

  /** `converted[k]` tells whether the k-th job created its file: it did
      exactly when no file of that name was there yet. */
  predicate Flags(boxes: map<string, seq<Message>>, jobs: seq<Job>, converted: seq<bool>) {
    && |converted| <= |jobs|
    && forall k :: 0 <= k < |converted| ==> (converted[k] <==> jobs[k].file !in Exported(boxes, jobs[..k]))
  }

  lemma FlagsStep(boxes: map<string, seq<Message>>, jobs: seq<Job>, converted: seq<bool>, done: bool)
    requires Flags(boxes, jobs, converted) && |converted| < |jobs|
    requires done <==> jobs[|converted|].file !in Exported(boxes, jobs[..|converted|])
    ensures Flags(boxes, jobs, converted + [done])
  {
  }

  /** The export directory. */
  class ExportDir {
    /** The mbox files by path, with the messages each holds. */
    var boxes: map<string, seq<Message>>

    constructor (boxes0: map<string, seq<Message>>)
      ensures boxes == boxes0
    {
      boxes := boxes0;
    }

    /** `convert_maildir(user_name, maildir_path, output_file, workers)`:
        `maildir` are the messages `md.iteritems()` yields and `totalMsgs`
        is `count_messages` of the Maildir. An existing output file is left
        alone; otherwise the file is created and every message appended,
        and the progress lines are those of `LinesUpTo`. */
    method ConvertMaildir(maildir: seq<Message>, totalMsgs: nat, outputFile: string, workers: int)
      returns (converted: bool, count: nat, lines: seq<Line>)
      modifies this
      ensures outputFile in old(boxes) ==> !converted && boxes == old(boxes) && count == 0 && lines == []
      ensures outputFile !in old(boxes) ==>
        && converted
        && boxes == old(boxes)[outputFile := maildir]
        && count == |maildir|
        && lines == LinesUpTo(|maildir|, totalMsgs, workers)
    {
      if outputFile in boxes {
        return false, 0, [];
      }
      boxes := boxes[outputFile := []];
      count := 0;
      lines := [];
      for i := 0 to |maildir|
        invariant count == i
        invariant boxes == old(boxes)[outputFile := maildir[..i]]
        invariant lines == LinesUpTo(i, totalMsgs, workers)
      {
        assert maildir[..i + 1] == maildir[..i] + [maildir[i]];
        boxes := boxes[outputFile := boxes[outputFile] + [maildir[i]]];
        count := count + 1;
        var percent := Percent(count, totalMsgs);
        if workers > 1 {
          if count % 100 == 0 || count == totalMsgs {
            lines := lines + [Line(count, totalMsgs, percent)];
          }
        } else {
          lines := lines + [Line(count, totalMsgs, percent)];
        }
      }
      assert maildir[..|maildir|] == maildir;
      converted := true;
    }

    /** The single-worker loop of `main`: each mailbox line in turn is
        converted into `dest`, under the name `OutputFile` builds;
        `maildirOf` and `countOf` give the messages and `count_messages`
        of a real path. */
    method ConvertAll(dest: string, info: seq<MailboxInfo>, maildirOf: string -> seq<Message>, countOf: string -> nat)
      returns (converted: seq<bool>)
      modifies this
      ensures boxes == Exported(old(boxes), Jobs(dest, info, maildirOf))
      ensures |converted| == |info|
      ensures Flags(old(boxes), Jobs(dest, info, maildirOf), converted)
    {
      converted := [];
      ghost var boxes0 := boxes;
      ghost var jobs := Jobs(dest, info, maildirOf);
      for i := 0 to |info|
        invariant boxes == Exported(boxes0, jobs[..i])
        invariant |converted| == i
        invariant Flags(boxes0, jobs, converted)
      {
        ExportedStep(boxes0, jobs, i);
        var path := info[i].path;
        var file := OutputFile(dest, info[i].name);
        assert jobs[i] == Job(file, maildirOf(path));
        var done, _, _ := ConvertMaildir(maildirOf(path), countOf(path), file, 1);
        FlagsStep(boxes0, jobs, converted, done);
        converted := converted + [done];
      }
      assert jobs[..|info|] == jobs;
    }
  }

  lemma ExportedStep(boxes: map<string, seq<Message>>, jobs: seq<Job>, i: nat)
    requires i < |jobs|
    ensures Exported(boxes, jobs[..i + 1]) ==
      if jobs[i].file in Exported(boxes, jobs[..i]) then Exported(boxes, jobs[..i])
      else Exported(boxes, jobs[..i])[jobs[i].file := jobs[i].messages]
  {
    assert jobs[..i + 1][..i] == jobs[..i];
  }

  /** A file that was there before is never overwritten, and the only
      files added are those of the jobs. */
  lemma {:induction false} ExportedKeepsExisting(boxes: map<string, seq<Message>>, jobs: seq<Job>, f: string)
    ensures f in boxes ==> f in Exported(boxes, jobs) && Exported(boxes, jobs)[f] == boxes[f]
    ensures f in Exported(boxes, jobs) ==> f in boxes || exists i :: 0 <= i < |jobs| && f == jobs[i].file
    decreases |jobs|
  {
    if jobs != [] {
      var n := |jobs| - 1;
      ExportedKeepsExisting(boxes, jobs[..n], f);
      if f in Exported(boxes, jobs) && f !in boxes && f != jobs[n].file {
        var i :| 0 <= i < n && f == jobs[..n][i].file;
        assert jobs[..n][i] == jobs[i];
      }
    }
  }

  /** A job whose file is new and is the file of no earlier job gets
      exactly its own messages; a later job with the same file is
      skipped. */
  lemma {:induction false} ExportedContent(boxes: map<string, seq<Message>>, jobs: seq<Job>, i: nat)
    requires i < |jobs| && jobs[i].file !in boxes
    requires forall j :: 0 <= j < i ==> jobs[j].file != jobs[i].file
    ensures jobs[i].file in Exported(boxes, jobs)
    ensures Exported(boxes, jobs)[jobs[i].file] == jobs[i].messages
    decreases |jobs|
  {
    var n := |jobs| - 1;
    var pre := jobs[..n];
    if i < n {
      assert pre[i] == jobs[i];
      assert forall j :: 0 <= j < i ==> pre[j] == jobs[j];
      ExportedContent(boxes, pre, i);
    } else {
      var f := jobs[i].file;
      ExportedKeepsExisting(boxes, pre, f);
      assert forall j :: 0 <= j < n ==> pre[j] == jobs[j];
    }
  }

  /** A job whose file an earlier job already created changes nothing:
      two mailboxes whose names differ only by spaces and underscores
      (`OutputFileMergesSpaces`) share one output file, and the later one
      is not exported. */
  lemma SharedFileSkipped(boxes: map<string, seq<Message>>, jobs: seq<Job>, i: nat, j: nat)
    requires i < j < |jobs| && jobs[i].file == jobs[j].file
    ensures Exported(boxes, jobs[..j + 1]) == Exported(boxes, jobs[..j])
  {
    ExportedFileThere(boxes, jobs[..j], i);
    assert jobs[..j][i] == jobs[i];
    assert jobs[..j + 1][..j] == jobs[..j];
  }

  /** Once a job has been processed, its file is there. */
  lemma {:induction false} ExportedFileThere(boxes: map<string, seq<Message>>, jobs: seq<Job>, i: nat)
    requires i < |jobs|
    ensures jobs[i].file in Exported(boxes, jobs)
    decreases |jobs|
  {
    var n := |jobs| - 1;
    if i < n {
      ExportedFileThere(boxes, jobs[..n], i);
      assert jobs[..n][i] == jobs[i];
    }
  }
}
