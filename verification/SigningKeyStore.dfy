/** `FileSigningKeyStore` of `inc/adapters/oidc/signing_keys.py`: private keys as files of one
    directory, written to a temporary file and renamed. Every system call may fail, and the process
    may stop at every one of them. */
module SigningKeyStore {
  import opened Text
  import opened Wrappers

  /** The files of the directory, by name. */
  type Directory = map<string, string>

  /** What becomes of one system call. A process that stops does not run its `except` clause. */
  datatype Step = Done | Raise | Stop

  /** The outcome of each system call of `generate`, in order; `written` is how many characters of the
      PEM have reached the file when `write` ends. */
  datatype Faults = Faults(
    directory: Step, probe: Step, open: Step, written: nat, write: Step,
    sync: Step, replace: Step, chmod: Step, unlink: Step)

  datatype Outcome = Returned | Raised | Stopped

  // ---------------------------------------------------------------- names

  predicate SafeChar(c: char) {
    'a' <= c <= 'z' || 'A' <= c <= 'Z' || '0' <= c <= '9' || c == '-' || c == '_'
  }

  predicate SafeId(kid: string) {
    kid != "" && forall i :: 0 <= i < |kid| ==> SafeChar(kid[i])
  }

  lemma OtherCharacters(c: char)
    ensures '0' <= c <= '9' || c == '-' || c == '_' <==> c in "0123456789-_"
  {
  }

  lemma InOneOfThree(c: char, x: string, y: string, z: string)
    ensures c in x + y + z <==> c in x || c in y || c in z
  {
  }

  lemma SafeCharMeaning(c: char)
    ensures SafeChar(c) <==> c in "abcdefghijklmnopqrstuvwxyz" + "ABCDEFGHIJKLMNOPQRSTUVWXYZ" + "0123456789-_"
  {
    LowerLetters(c);
    UpperLetters(c);
    OtherCharacters(c);
    InOneOfThree(c, "abcdefghijklmnopqrstuvwxyz", "ABCDEFGHIJKLMNOPQRSTUVWXYZ", "0123456789-_");
  }

  /** An id is admitted exactly when it is not empty and spelled in the alphabet of the store. */
  lemma SafeIdMeaning(kid: string)
    ensures SafeId(kid) <==>
              kid != "" && forall c :: c in kid ==>
                c in "abcdefghijklmnopqrstuvwxyz" + "ABCDEFGHIJKLMNOPQRSTUVWXYZ" + "0123456789-_"
  {
    forall c {
      SafeCharMeaning(c);
    }
    if SafeId(kid) {
      forall c | c in kid
        ensures SafeChar(c)
      {
        var i :| 0 <= i < |kid| && kid[i] == c;
      }
    }
  }

  /** No id leads out of the directory, to a hidden file or to a file with another suffix. */
  lemma SafeIdsStayInside(kid: string)
    ensures '/' in kid || '.' in kid || '\\' in kid || '\0' in kid ==> !SafeId(kid)
  {
  }

  function Target(kid: string): string {
    kid + ".pem"
  }

  /** A file name up to its last dot. */
  function Stem(name: string): string {
    if name == [] then [] else if name[|name| - 1] == '.' then name[..|name| - 1] else Stem(name[..|name| - 1])
  }

  /** `target.with_suffix(".tmp")`. */
  function Temporary(kid: string): string {
    Stem(Target(kid)) + ".tmp"
  }

  lemma TemporaryName(kid: string)
    ensures Temporary(kid) == kid + ".tmp"
  {
    var name := Target(kid);
    assert name[..|kid| + 3] == kid + ".pe";
    assert (kid + ".pe")[..|kid| + 2] == kid + ".p";
    assert (kid + ".p")[..|kid| + 1] == kid + ".";
    assert (kid + ".")[..|kid|] == kid;
    assert Stem(kid + ".") == kid;
    assert Stem(kid + ".pe") == Stem(kid + ".p") == Stem(kid + ".");
  }

  /** Different ids never share a file. */
  lemma NamesAreDisjoint(kid: string, kid': string)
    ensures Target(kid) != Temporary(kid')
    ensures kid != kid' ==> Target(kid) != Target(kid') && Temporary(kid) != Temporary(kid')
  {
    TemporaryName(kid);
    TemporaryName(kid');
    var p, t := Target(kid), kid' + ".tmp";
    assert p[|p| - 1] == 'm' && t[|t| - 1] == 'p';
    assert Target(kid)[..|Target(kid)| - 4] == kid && Target(kid')[..|Target(kid')| - 4] == kid';
    assert (kid + ".tmp")[..|kid + ".tmp"| - 4] == kid && (kid' + ".tmp")[..|kid' + ".tmp"| - 4] == kid';
  }

  // ---------------------------------------------------------------- one call

  /** Where a failed call ends: the `except` clause removes the temporary file, unless that fails too. */
  function Cleaned(files: Directory, kid: string, unlink: Step): (Directory, Outcome) {
    match unlink
    case Done => (files - {Temporary(kid)}, Raised)
    case Raise => (files, Raised)
    case Stop => (files, Stopped)
  }

  function Ended(step: Step): Outcome {
    if step == Stop then Stopped else Raised
  }

  /** `generate`: the directory it leaves and how it ends. */
  function Generated(files: Directory, kid: string, pem: string, f: Faults): (Directory, Outcome) {
    if f.directory != Done then (files, Ended(f.directory))
    else if !SafeId(kid) then (files, Raised)
    else if f.probe != Done then (files, Ended(f.probe))
    else if Target(kid) in files then (files, Raised)
    else if Temporary(kid) in files then (files, Raised)
    else if f.open != Done then (files, Ended(f.open))
    else
      var part := if f.write == Done || f.written >= |pem| then pem else pem[..f.written];
      var partial := files[Temporary(kid) := part];
      if f.write != Done then Aborted(partial, kid, f.write, f.unlink)
      else if f.sync != Done then Aborted(partial, kid, f.sync, f.unlink)
      else if f.replace != Done then Aborted(partial, kid, f.replace, f.unlink)
      else
        var renamed := files[Target(kid) := pem];
        if f.chmod != Done then Aborted(renamed, kid, f.chmod, f.unlink) else (renamed, Returned)
  }

  function Aborted(files: Directory, kid: string, step: Step, unlink: Step): (Directory, Outcome) {
    if step == Stop then (files, Stopped) else Cleaned(files, kid, unlink)
  }

  function Dropped(files: Directory, kid: string, unlink: Step): (Directory, Outcome) {
    if !SafeId(kid) then (files, Raised)
    else if unlink != Done then (files, Ended(unlink))
    else (files - {Target(kid)}, Returned)
  }

  // ---------------------------------------------------------------- runs

  datatype Call =
    | Generate(kid: string, pem: string, faults: Faults)
    | Load(kid: string)
    | Drop(kid: string, unlink: Step)

  function After(files: Directory, call: Call): Directory {
    match call
    case Generate(kid, pem, faults) => Generated(files, kid, pem, faults).0
    case Load(_) => files
    case Drop(kid, unlink) => Dropped(files, kid, unlink).0
  }

  function AfterAll(files: Directory, calls: seq<Call>): Directory
    decreases |calls|
  {
    if calls == [] then files else AfterAll(After(files, calls[0]), calls[1..])
  }

  /** A call on one id touches no file of another id. */
  lemma OtherFilesAreUntouched(files: Directory, call: Call, name: string)
    requires name != Target(call.kid) && name != Temporary(call.kid)
    ensures name in After(files, call) <==> name in files
    ensures name in files ==> After(files, call)[name] == files[name]
  {
  }

  /** A key that exists is never written again: a call leaves it as it is, or is the drop that
      removes it. */
  lemma ExistingKeyIsKept(files: Directory, call: Call, kid: string)
    requires Target(kid) in files
    ensures if Target(kid) in After(files, call) then After(files, call)[Target(kid)] == files[Target(kid)]
            else call == Drop(kid, Done) && SafeId(kid)
  {
    NamesAreDisjoint(kid, call.kid);
  }

  /** Every visible key is one complete PEM from one `generate` of its id, and what lies in a
      temporary file is the beginning of such a PEM. `minted` are the keys generated so far. */
  ghost predicate Intact(files: Directory, minted: set<(string, string)>) {
    && (forall kid :: Target(kid) in files ==> (kid, files[Target(kid)]) in minted)
    && (forall kid :: Temporary(kid) in files ==>
          exists pem :: (kid, pem) in minted && files[Temporary(kid)] <= pem)
  }

  function Minted(call: Call): set<(string, string)> {
    if call.Generate? then {(call.kid, call.pem)} else {}
  }

  lemma CallKeepsIntact(files: Directory, call: Call, minted: set<(string, string)>)
    requires Intact(files, minted)
    ensures Intact(After(files, call), minted + Minted(call))
  {
    var after := After(files, call);
    forall kid | Target(kid) in after
      ensures (kid, after[Target(kid)]) in minted + Minted(call)
    {
      NamesAreDisjoint(kid, call.kid);
    }
    forall kid | Temporary(kid) in after
      ensures exists pem :: (kid, pem) in minted + Minted(call) && after[Temporary(kid)] <= pem
    {
      NamesAreDisjoint(call.kid, kid);
      NamesAreDisjoint(kid, call.kid);
      if Temporary(kid) in files && files[Temporary(kid)] == after[Temporary(kid)] {
        var pem :| (kid, pem) in minted && files[Temporary(kid)] <= pem;
        assert (kid, pem) in minted + Minted(call);
      } else {
        assert call.Generate? && kid == call.kid;
        assert after[Temporary(kid)] <= call.pem;
        assert (kid, call.pem) in minted + Minted(call);
      }
    }
  }

  function AllMinted(calls: seq<Call>): set<(string, string)> {
    if calls == [] then {} else Minted(calls[0]) + AllMinted(calls[1..])
  }

  lemma {:induction false} CallsKeepIntact(files: Directory, calls: seq<Call>, minted: set<(string, string)>)
    requires Intact(files, minted)
    ensures Intact(AfterAll(files, calls), minted + AllMinted(calls))
    decreases |calls|
  {
    if calls == [] {
      assert minted + AllMinted(calls) == minted;
    } else {
      CallKeepsIntact(files, calls[0], minted);
      CallsKeepIntact(After(files, calls[0]), calls[1..], minted + Minted(calls[0]));
      assert minted + Minted(calls[0]) + AllMinted(calls[1..]) == minted + AllMinted(calls);
    }
  }

  /** In every directory that any sequence of calls leads to from an empty one, whatever failed and
      wherever the process stopped, a visible key is the whole PEM of one `generate` of its id. */
  lemma VisibleKeysAreComplete(calls: seq<Call>, kid: string)
    ensures var files := AfterAll(map[], calls);
            Target(kid) in files ==>
              exists i :: 0 <= i < |calls| && calls[i].Generate? && calls[i].kid == kid
                          && calls[i].pem == files[Target(kid)]
  {
    var files := AfterAll(map[], calls);
    CallsKeepIntact(map[], calls, {});
    if Target(kid) in files {
      assert (kid, files[Target(kid)]) in AllMinted(calls);
      MintedByACall(calls, (kid, files[Target(kid)]));
    }
  }

  lemma {:induction false} MintedByACall(calls: seq<Call>, key: (string, string))
    requires key in AllMinted(calls)
    ensures exists i :: 0 <= i < |calls| && calls[i].Generate? && (calls[i].kid, calls[i].pem) == key
  {
    if key in Minted(calls[0]) {
      assert calls[0].Generate? && (calls[0].kid, calls[0].pem) == key;
    } else {
      MintedByACall(calls[1..], key);
      var i :| 0 <= i < |calls[1..]| && calls[1..][i].Generate? && (calls[1..][i].kid, calls[1..][i].pem) == key;
      assert calls[i + 1] == calls[1..][i];
    }
  }

  /** As long as nobody drops it, a key stays the same through any run. */
  lemma {:induction false} KeyOutlivesRun(files: Directory, calls: seq<Call>, kid: string)
    requires Target(kid) in files
    requires forall i :: 0 <= i < |calls| ==> !(calls[i].Drop? && calls[i].kid == kid)
    ensures Target(kid) in AfterAll(files, calls) && AfterAll(files, calls)[Target(kid)] == files[Target(kid)]
    decreases |calls|
  {
    if calls != [] {
      ExistingKeyIsKept(files, calls[0], kid);
      KeyOutlivesRun(After(files, calls[0]), calls[1..], kid);
    }
  }

  /** A key that was generated stays what it was through any run that does not drop it. */
  lemma GeneratedKeyStays(files: Directory, kid: string, pem: string, f: Faults, calls: seq<Call>)
    requires Generated(files, kid, pem, f).1 == Returned
    requires forall i :: 0 <= i < |calls| ==> !(calls[i].Drop? && calls[i].kid == kid)
    ensures var after := AfterAll(Generated(files, kid, pem, f).0, calls);
            Target(kid) in after && after[Target(kid)] == pem
  {
    GenerateSucceedsIff(files, kid, pem, f);
    KeyOutlivesRun(Generated(files, kid, pem, f).0, calls, kid);
  }

  /** When `generate` succeeds: the id is not empty and spelled in the alphabet, neither file exists, and no
      step fails. Then the key is in place and nothing else has changed. */
  lemma GenerateSucceedsIff(files: Directory, kid: string, pem: string, f: Faults)
    ensures Generated(files, kid, pem, f).1 == Returned <==>
              && kid != ""
              && (forall c :: c in kid ==>
                    c in "abcdefghijklmnopqrstuvwxyz" + "ABCDEFGHIJKLMNOPQRSTUVWXYZ" + "0123456789-_")
              && kid + ".pem" !in files && kid + ".tmp" !in files
              && f.directory == f.probe == f.open == f.write == f.sync == f.replace == f.chmod == Done
    ensures Generated(files, kid, pem, f).1 == Returned ==>
              Generated(files, kid, pem, f).0 == files[kid + ".pem" := pem]
  {
    SafeIdMeaning(kid);
    TemporaryName(kid);
  }

  /** Under any other id nothing is read, written or removed: the call raises, unless the process stops before
      the id is looked at. */
  lemma OtherIdsAreRefused(files: Directory, kid: string, pem: string, f: Faults, unlink: Step)
    requires kid == "" || !forall c :: c in kid ==>
               c in "abcdefghijklmnopqrstuvwxyz" + "ABCDEFGHIJKLMNOPQRSTUVWXYZ" + "0123456789-_"
    ensures Generated(files, kid, pem, f) == (files, if f.directory == Stop then Stopped else Raised)
    ensures Dropped(files, kid, unlink) == (files, Raised)
  {
    SafeIdMeaning(kid);
  }

  /** Ids such as the store's callers make, `sig-<time>-<hex>`, are admitted. */
  lemma MintedIdsSucceed(time: string, hex: string, pem: string)
    requires forall i :: 0 <= i < |time| ==> '0' <= time[i] <= '9'
    requires forall i :: 0 <= i < |hex| ==> '0' <= hex[i] <= '9' || 'a' <= hex[i] <= 'f'
    ensures var kid := "sig-" + time + "-" + hex;
            Generated(map[], kid, pem, Faults(Done, Done, Done, 0, Done, Done, Done, Done, Done))
            == (map[kid + ".pem" := pem], Returned)
  {
    var kid := "sig-" + time + "-" + hex;
    assert forall i :: 0 <= i < 4 ==> kid[i] == "sig-"[i];
    assert forall i :: 0 <= i < |time| ==> kid[4 + i] == time[i];
    assert forall i :: 0 <= i < |hex| ==> kid[5 + |time| + i] == hex[i];
    assert SafeId(kid);
  }

  // ---------------------------------------------------------------- left-over temporary files

  /** When a call leaves a temporary file that was not there: the file had been opened, some step up to
      the rename did not finish, and either the process stopped there or the clean-up did not run. */
  lemma LeftoverIff(files: Directory, kid: string, pem: string, f: Faults)
    requires Temporary(kid) !in files
    ensures Temporary(kid) in Generated(files, kid, pem, f).0 <==>
              && SafeId(kid) && Target(kid) !in files && f.directory == f.probe == f.open == Done
              && !(f.write == f.sync == f.replace == Done)
              && ((if f.write != Done then f.write else if f.sync != Done then f.sync else f.replace) == Stop
                  || f.unlink != Done)
  {
    NamesAreDisjoint(kid, kid);
  }

  /** When a call raises or stops and yet leaves the key in place: everything up to the rename had
      succeeded, and the permissions could not be set. */
  lemma KeptThoughRaisedIff(files: Directory, kid: string, pem: string, f: Faults)
    requires Target(kid) !in files
    ensures var (after, outcome) := Generated(files, kid, pem, f);
            && (Target(kid) in after && outcome != Returned <==>
                && SafeId(kid) && Temporary(kid) !in files
                && f.directory == f.probe == f.open == f.write == f.sync == f.replace == Done
                && f.chmod != Done)
            && (Target(kid) in after ==> after == files[Target(kid) := pem])
  {
    NamesAreDisjoint(kid, kid);
  }

  /** Such a file is never removed by the store itself, and while it is there no key of that id can be
      generated again. */
  lemma {:induction false} LeftoverBlocksForever(files: Directory, calls: seq<Call>, kid: string)
    requires Temporary(kid) in files
    ensures Temporary(kid) in AfterAll(files, calls)
            && AfterAll(files, calls)[Temporary(kid)] == files[Temporary(kid)]
    ensures Target(kid) !in files ==> Target(kid) !in AfterAll(files, calls)
    ensures forall pem, f :: Generated(AfterAll(files, calls), kid, pem, f).1 != Returned
    decreases |calls|
  {
    if calls != [] {
      NamesAreDisjoint(kid, calls[0].kid);
      NamesAreDisjoint(calls[0].kid, kid);
      LeftoverBlocksForever(After(files, calls[0]), calls[1..], kid);
    }
  }

  // ---------------------------------------------------------------- the store itself

  class FileSigningKeyStore {
    var files: Directory

    constructor (existing: Directory)
      ensures files == existing
    {
      files := existing;
    }

    /** The `except` clause. */
    method Abort(kid: string, step: Step, unlink: Step) returns (outcome: Outcome)
      modifies this
      ensures (files, outcome) == Aborted(old(files), kid, step, unlink)
    {
      if step == Stop || unlink == Stop {
        return Stopped;
      }
      if unlink == Done {
        files := files - {Temporary(kid)};
      }
      return Raised;
    }

    method Generate(kid: string, pem: string, f: Faults) returns (outcome: Outcome)
      modifies this
      ensures (files, outcome) == Generated(old(files), kid, pem, f)
    {
      if f.directory != Done { return Ended(f.directory); }
      if !SafeId(kid) { return Raised; }
      var target, temporary := Target(kid), Temporary(kid);
      if f.probe != Done { return Ended(f.probe); }
      if target in files { return Raised; }
      if temporary in files { return Raised; }
      if f.open != Done { return Ended(f.open); }
      ghost var before := files;
      files := files[temporary := ""];
      if f.write != Done {
        files := files[temporary := if f.written >= |pem| then pem else pem[..f.written]];
        assert files == before[temporary := files[temporary]];
        outcome := Abort(kid, f.write, f.unlink);
        return;
      }
      files := files[temporary := pem];
      assert files == before[temporary := pem];
      if f.sync != Done {
        outcome := Abort(kid, f.sync, f.unlink);
        return;
      }
      if f.replace != Done {
        outcome := Abort(kid, f.replace, f.unlink);
        return;
      }
      files := (files - {temporary})[target := files[temporary]];
      assert files == before[target := pem] by {
        NamesAreDisjoint(kid, kid);
      }
      if f.chmod != Done {
        outcome := Abort(kid, f.chmod, f.unlink);
        return;
      }
      return Returned;
    }

    /** `None` for an absent key. `parse` is what the library makes of a PEM: the key it holds, or `None`
        when it raises. Any step may fail. A key that is returned is that of one `generate` of the id. */
    method LoadPrivate(kid: string, probe: Step, read: Step, parse: string -> Option<string>)
      returns (r: Result<Option<string>, Outcome>)
      ensures r == Success(None) <==> SafeId(kid) && probe == Done && Target(kid) !in files
      ensures r.Success? && r.value.Some? <==>
                && SafeId(kid) && probe == Done && Target(kid) in files && read == Done
                && parse(files[Target(kid)]).Some?
      ensures r == Failure(Stopped) <==>
                SafeId(kid) && (probe == Stop || (probe == Done && Target(kid) in files && read == Stop))
      ensures r.Success? && r.value.Some? ==> r.value == parse(files[Target(kid)])
      ensures r.Failure? ==> r.error == Raised || r.error == Stopped
      ensures forall minted :: Intact(files, minted) && r.Success? && r.value.Some? ==>
                exists pem :: (kid, pem) in minted && parse(pem) == r.value
    {
      if !SafeId(kid) { return Failure(Raised); }
      if probe != Done { return Failure(Ended(probe)); }
      if Target(kid) !in files { return Success(None); }
      if read != Done { return Failure(Ended(read)); }
      var key := parse(files[Target(kid)]);
      if key == None { return Failure(Raised); }
      return Success(key);
    }

    /** When it returns the key is gone, and with it nothing else; otherwise nothing has changed. The keys
        that are left stay complete. */
    method DropPrivate(kid: string, unlink: Step) returns (outcome: Outcome)
      modifies this
      ensures outcome == Returned <==> SafeId(kid) && unlink == Done
      ensures outcome == Returned ==> Target(kid) !in files
      ensures outcome != Returned ==> files == old(files)
      ensures forall name :: name != Target(kid) ==>
                (name in files <==> name in old(files)) && (name in files ==> files[name] == old(files)[name])
      ensures forall minted :: Intact(old(files), minted) ==> Intact(files, minted)
      ensures files == After(old(files), Drop(kid, unlink))
    {
      if !SafeId(kid) { return Raised; }
      if unlink != Done { return Ended(unlink); }
      if Target(kid) in files {
        files := files - {Target(kid)};
      }
      forall minted | Intact(old(files), minted)
        ensures Intact(files, minted)
      {
        CallKeepsIntact(old(files), Drop(kid, unlink), minted);
        assert minted + Minted(Drop(kid, unlink)) == minted;
      }
      return Returned;
    }
  }
}
