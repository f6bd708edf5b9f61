/** A run the detection results speak about. */
module DetectionExample {
  import opened ByteStrings
  import opened Detection
  import opened DetectionRuns
  import opened Hashing
  import opened MerkleBinding
  import opened MerkleShape
  import opened RecordIds
  import opened Storages
  import opened VerificationPass

  lemma OneTextDoesNotCollide(h: Hasher, text: string)
    ensures !Collides(h, {text})
  {
  }

  lemma OneEntryTexts(h: Hasher, entry: HashEntry, s: History, step: Step, id: string, text: string)
    requires step.Verify? && step.rows == [] && step.entries == [entry] && s.checkpoints == map[]
    requires s.table == map[] && s.adopted == map[] && s.recorded == map[id := text]
    ensures StepTexts(h, s, step) == {text}
  {
    assert s.recorded[id] == text;
    assert s.recorded.Values == {text} by {
      assert text in s.recorded.Values;
      assert forall v :: v in s.recorded.Values ==> v == text;
    }
    assert EntryLeaves([entry]) == [entry.dataHash];
    assert SortStrings([entry.dataHash]) == [entry.dataHash];
    assert Leaves([entry.dataHash]) == [Leaf(entry.dataHash)];
    assert BuildTexts(h, EntryLeaves([entry])) == {};
  }

  /** A step of a run that hashes only these strings. */
  ghost predicate IsStep(h: Hasher, idOf: string -> string, s: History, step: Step, next: History, texts: set<string>) {
    Takes(h, idOf, s, step, next) && StepTexts(h, s, step) <= texts
  }

  lemma RunExtends(h: Hasher, idOf: string -> string, states: seq<History>, steps: seq<Step>, step: Step, next: History, texts: set<string>)
    requires IsRun(h, idOf, states, steps, texts) && IsStep(h, idOf, states[|steps|], step, next, texts)
    ensures IsRun(h, idOf, states + [next], steps + [step], texts)
  {
    var longer, more := states + [next], steps + [step];
    forall i | 0 <= i < |more|
      ensures Takes(h, idOf, longer[i], more[i], longer[i + 1]) && StepTexts(h, longer[i], more[i]) <= texts
    {
      if i < |steps| {
        assert longer[i] == states[i] && more[i] == steps[i] && longer[i + 1] == states[i + 1];
        assert Takes(h, idOf, states[i], steps[i], states[i + 1]) && StepTexts(h, states[i], steps[i]) <= texts;
      }
    }
  }

  lemma RowShows(h: Hasher, idOf: string -> string, id: string, text: string, next: History)
    requires IsRowText(text) && idOf(text) == id && !IsPrinted(id)
    requires next == Empty.(table := map[id := text])
    ensures Takes(h, idOf, Empty, Edit(map[id := text]), next) && StepTexts(h, Empty, Edit(map[id := text])) == {}
  {
  }

  lemma InsertIsTaken(h: Hasher, idOf: string -> string, step: Step, s: History, next: History)
    requires step.Insert? && IsRowText(step.text) && idOf(step.text) == step.id && !IsPrinted(step.id)
    requires IsPrinted(step.recordID) && ExtractID(step.recordID) == step.id
    requires s == Empty.(table := map[step.id := step.text]) && next == After(h, s, step)
    ensures Takes(h, idOf, s, step, next) && StepTexts(h, s, step) == {step.text}
    ensures next == s.(chain := [InsertedEntry(h, s, step)], recorded := map[step.id := step.text])
  {
  }

  lemma DeletionIsTaken(h: Hasher, idOf: string -> string, s: History, next: History)
    requires next == s.(table := map[])
    ensures Takes(h, idOf, s, Edit(map[]), next) && StepTexts(h, s, Edit(map[])) == {}
  {
  }

  lemma PassIsTaken(h: Hasher, idOf: string -> string, s: History, step: Step, id: string, text: string)
    requires step.Verify? && step.rows == [] && |step.entries| == 1 && s.chain == step.entries && NumberOf(step.latest) <= 1
    requires s.checkpoints == map[] && s.table == map[] && s.adopted == map[] && s.recorded == map[id := text]
    ensures Takes(h, idOf, s, step, After(h, s, step)) && StepTexts(h, s, step) == {text}
  {
    PassIsEnabled(idOf, s, step);
    OneEntryTexts(h, step.entries[0], s, step, id, text);
  }

  lemma PassIsEnabled(idOf: string -> string, s: History, step: Step)
    requires step.Verify? && step.rows == [] && |step.entries| == 1 && s.chain == step.entries && NumberOf(step.latest) <= 1
    requires s.checkpoints == map[] && s.table == map[]
    ensures Enabled(idOf, s, step)
  {
  }

  lemma DeletionRun(h: Hasher, idOf: string -> string, id: string, text: string, recordID: string)
    returns (states: seq<History>, steps: seq<Step>)
    requires IsRowText(text) && idOf(text) == id && !IsPrinted(id)
    requires IsPrinted(recordID) && ExtractID(recordID) == id
    ensures IsRun(h, idOf, states, steps, {text}) && |steps| == 4
    ensures states[0] == Empty && states[3].recorded == map[id := text] && states[3].table == map[]
    ensures steps[0].Edit? && steps[1].Insert? && steps[2].Edit? && steps[3].Verify?
  {
    var insert := Insert(id, text, recordID, "t", "INSERT", 0);
    var s1 := Empty.(table := map[id := text]);
    RowShows(h, idOf, id, text, s1);
    var s2 := After(h, s1, insert);
    InsertIsTaken(h, idOf, insert, s1, s2);
    var s3 := s2.(table := map[]);
    DeletionIsTaken(h, idOf, s2, s3);
    var pass := Verify([], s3.chain, LastOf(s3.chain), "t", "sha256", 0);
    PassIsTaken(h, idOf, s3, pass, id, text);
    states, steps := [Empty], [];
    RunExtends(h, idOf, states, steps, Edit(map[id := text]), s1, {text});
    states, steps := states + [s1], steps + [Edit(map[id := text])];
    RunExtends(h, idOf, states, steps, insert, s2, {text});
    states, steps := states + [s2], steps + [insert];
    RunExtends(h, idOf, states, steps, Edit(map[]), s3, {text});
    states, steps := states + [s3], steps + [Edit(map[])];
    RunExtends(h, idOf, states, steps, pass, After(h, s3, pass), {text});
    states, steps := states + [After(h, s3, pass)], steps + [pass];
  }

  /** A run in which a recorded row is deleted from outside and the next pass reports it. No two
      different strings are hashed in it, so nothing is assumed of the digest. */
  lemma DeletedRowIsReported(h: Hasher, idOf: string -> string, id: string, text: string, recordID: string)
    returns (states: seq<History>, steps: seq<Step>)
    requires IsRowText(text) && idOf(text) == id && !IsPrinted(id)
    requires IsPrinted(recordID) && ExtractID(recordID) == id
    ensures IsRun(h, idOf, states, steps, {text}) && |steps| == 4 && !Collides(h, {text})
    ensures states[0] == Empty && Sound(h, idOf, Empty) && PassesFindChain(states, steps)
    ensures steps[3].Verify? && VerdictOf(h, states[3], steps[3]).Tampered?
  {
    states, steps := DeletionRun(h, idOf, id, text, recordID);
    EmptyIsSound(h, idOf);
    OneTextDoesNotCollide(h, text);
    assert id in states[3].recorded;
    RunsTellTable(h, idOf, states, steps, {text}, 3);
  }
}
