/** A whole log, from the writer object over its file to the reader object. */
module LogRoundTrip {
  import opened Basics
  import opened LogFormat
  import opened LogCodec
  import opened LogMachines

  lemma {:induction false} RunGrows(w: WriterState, run: Run, i: nat)
    requires WriterOk(w) && i < |run|
    ensures var u := AfterRun(w, run[..i]);
            && WriterOk(u)
            && AfterRun(w, run[..i + 1]) == AfterWrite(u, run[i].0)
            && EncodeAll(w, run[..i + 1]) == EncodeAll(w, run[..i]) + Encode(u, run[i].0, run[i].1)
    decreases i
  {
    hide Encode, AfterWrite, WriterOk;
    if i == 0 {
      assert run[..1] == [run[0]] && run[..0] == [];
      assert EncodeAll(w, []) == [] && EncodeAll(AfterWrite(w, run[0].0), []) == [];
      assert run[..1][1..] == [];
    } else {
      RunGrows(AfterWrite(w, run[0].0), run[1..], i - 1);
      assert run[..i + 1][1..] == run[1..][..i] && run[..i][1..] == run[1..][..i - 1];
    }
  }

  /** Writes a header and every message of the run into an empty file. */
  method WriteLog(run: Run, contentHash: Content -> int) returns (file: Bytes)
    ensures file == [LOG_VERSION] + EncodeAll(INITIAL_WRITER, run)
  {
    hide Encode, AfterWrite, EncodeAll, AfterRun, WriterOk;
    var writer := new EncodedLogWriter(contentHash);
    writer.hasDevice := true;
    var success := writer.WriteHeader();
    NothingWritten();
    for i := 0 to |run|
      invariant writer.Valid() && writer.buffer == [] && writer.hasDevice
      invariant fresh(writer) && fresh(writer.recentMessages.ring) && fresh(writer.recentMessages.ring.data)
      invariant WriterOk(INITIAL_WRITER) && writer.State() == AfterRun(INITIAL_WRITER, run[..i])
      invariant writer.device == [LOG_VERSION] + EncodeAll(INITIAL_WRITER, run[..i])
    {
      RunGrows(INITIAL_WRITER, run, i);
      success := writer.Write(run[i].0, run[i].1);
    }
    assert run[..|run|] == run;
    file := writer.device;
  }

  lemma NothingWritten()
    ensures WriterOk(INITIAL_WRITER)
    ensures EncodeAll(INITIAL_WRITER, []) == [] && AfterRun(INITIAL_WRITER, []) == INITIAL_WRITER
  {}

  /** Reads messages until a call fails. */
  method ReadLog(file: Bytes) returns (readable: bool, messages: seq<Message>, rest: Bytes)
    ensures readable <==> file != [] && file[0] == LOG_VERSION
    ensures readable ==> var log := DecodeAll(INITIAL_READER, file[1..]);
                         messages == log.messages && rest == log.rest
  {
    hide Decode;
    var reader := new EncodedLogReader(file);
    var success;
    success, readable := reader.ReadHeader();
    messages, rest := [], reader.input;
    if !readable {
      return;
    }
    ghost var log := DecodeAll(INITIAL_READER, reader.input);
    while success
      invariant reader.Valid() && fresh(reader) && fresh(reader.recentMessages) && fresh(reader.recentMessages.data)
      invariant success ==> var more := DecodeAll(reader.State(), reader.input);
                            log.messages == messages + more.messages && log.rest == more.rest
      invariant !success ==> log.messages == messages && log.rest == reader.input
      decreases success, |reader.input|
    {
      var message;
      success, message := reader.Read();
      if success {
        messages := messages + [message];
      }
    }
    rest := reader.input;
  }

  /**
    The reader gives back the run the writer was given, message by message and to the
    last byte; with the clock guard, every time floored to seconds as well.
   */
  method WriteAndRead(run: Run, contentHash: Content -> int) returns (messages: seq<Message>)
    requires RunSendable(INITIAL_WRITER, run) && RunFaithful(INITIAL_WRITER, run)
    ensures |messages| == |run|
    ensures forall i :: 0 <= i < |run| ==> Key(messages[i]) == Key(run[i].0)
    ensures (forall i :: 0 <= i < |run| ==> 0 <= run[i].0.time < U64 / 2) ==>
              (TimesAgree(messages, run) <==> RunClockExact(INITIAL_WRITER, run))
  {
    hide Decode, Encode, EncodeAll, DecodeAll, RunSendable, RunFaithful, RunClockExact, TimesAgree;
    InitialLockstep();
    var file := WriteLog(run, contentHash);
    var readable, rest;
    readable, messages, rest := ReadLog(file);
    assert file[1..] == EncodeAll(INITIAL_WRITER, run);
    RunRoundTrip(INITIAL_WRITER, INITIAL_READER, run);
    if forall i :: 0 <= i < |run| ==> 0 <= run[i].0.time < U64 / 2 {
      RunClocks(INITIAL_WRITER, INITIAL_READER, run);
    }
  }
}
