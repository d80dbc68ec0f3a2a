/** Installing a generated private key (src/keygen.rs, write_private_key and
    create_temporary): any number of generators, each a list of file-system steps,
    interleaved in any way and stopped anywhere. */
module KeyInstall {
  import opened ByteStrings

  /** A directory maps names to files; a file has a number and contents. A hard
      link gives one file a second name; a name whose number has no contents is a
      dangling symbolic link. */
  datatype Dir = Dir(names: map<Bytes, nat>, files: map<nat, Bytes>, nextFile: nat)

  /** The existence check follows links: a dangling one looks absent. */
  predicate Exists(dir: Dir, name: Bytes) { name in dir.names && dir.names[name] in dir.files }

  datatype Pc =
    | Begin
    | Allocating(tries: nat)                       // about to take a sequence number
    | Opening(tries: nat, path: Bytes)             // about to create the file exclusively
    | Securing(path: Bytes, file: nat)             // about to set its mode
    | Writing(path: Bytes, file: nat, done: nat)
    | Linking(path: Bytes, file: nat)              // written and synced
    | Removing(path: Bytes, file: nat)             // installed; about to remove the temporary name
    | Cleaning(path: Bytes, file: nat)             // about to remove it after a failure
    | Finished(ok: bool)

  datatype Generator = Generator(process: nat, contents: Bytes, pc: Pc)

  /** `target` is the name all generators are asked to install. Generators of one
      process share its sequence counter. */
  datatype System = System(
    target: Bytes,
    pids: seq<nat>,
    sequences: seq<nat>,
    dir: Dir,
    generators: seq<Generator>,
    installer: Option<nat>)     // the generator that linked the target

  const ATTEMPTS: nat := 100

  function TempName(name: Bytes, pid: nat, sequence: nat): Bytes {
    "." + name + "." + Decimal(pid) + "." + Decimal(sequence) + ".tmp"
  }

  /** How a call turns out: `Works(n)` also says how much a write takes. */
  datatype Turn = Works(n: nat) | Fails

  datatype Label = Label(generator: nat, turn: Turn)

  predicate Shape(s: System) {
    && |s.pids| == |s.sequences|
    && forall i :: 0 <= i < |s.generators| ==> s.generators[i].process < |s.pids|
  }

  function At(s: System, g: nat, pc: Pc): System
    requires g < |s.generators|
  {
    s.(generators := s.generators[g := s.generators[g].(pc := pc)])
  }

  function WithoutName(dir: Dir, path: Bytes): Dir {
    dir.(names := map n | n in dir.names && n != path :: dir.names[n])
  }

  /** One call of generator `g`, or None when it cannot turn out that way. */
  function Step(s: System, g: nat, turn: Turn): Option<System>
    requires Shape(s) && g < |s.generators|
  {
    var gen, dir := s.generators[g], s.dir;
    match gen.pc
    case Begin =>
      if Exists(dir, s.target) || turn.Fails? then Some(At(s, g, Finished(false)))
      else Some(At(s, g, Allocating(0)))
    case Allocating(tries) =>
      if tries == ATTEMPTS then Some(At(s, g, Finished(false)))
      else
        var n := s.sequences[gen.process];
        var path := TempName(s.target, s.pids[gen.process], n);
        Some(At(s, g, Opening(tries, path)).(sequences := s.sequences[gen.process := n + 1]))
    case Opening(tries, path) =>
      if turn.Fails? then Some(At(s, g, Finished(false)))
      else if path in dir.names then Some(At(s, g, Allocating(tries + 1)))
      else
        var created := Dir(dir.names[path := dir.nextFile], dir.files[dir.nextFile := []], dir.nextFile + 1);
        Some(At(s, g, Securing(path, dir.nextFile)).(dir := created))
    case Securing(path, file) =>
      Some(At(s, g, if turn.Fails? then Cleaning(path, file) else Writing(path, file, 0)))
    case Writing(path, file, done) =>
      if turn.Fails? then Some(At(s, g, Cleaning(path, file)))
      else if done == |gen.contents| then Some(At(s, g, Linking(path, file)))
      else if done < turn.n <= |gen.contents| then
        Some(At(s, g, Writing(path, file, turn.n)).(
             dir := dir.(files := dir.files[file := gen.contents[..turn.n]])))
      else None
    case Linking(path, file) =>
      if turn.Fails? || s.target in dir.names || path !in dir.names then Some(At(s, g, Cleaning(path, file)))
      else
        Some(At(s, g, Removing(path, file)).(
             dir := dir.(names := dir.names[s.target := dir.names[path]]), installer := Some(g)))
    case Removing(path, file) =>
      if turn.Fails? then Some(At(s, g, Cleaning(path, file)))
      else Some(At(s, g, Finished(true)).(dir := WithoutName(dir, path)))
    case Cleaning(path, file) =>
      // A failing removal is ignored.
      Some(At(s, g, Finished(false)).(dir := if turn.Fails? then dir else WithoutName(dir, path)))
    case Finished(_) => None
  }

  function Next(s: System, l: Label): Option<System>
    requires Shape(s)
  {
    if l.generator < |s.generators| then Step(s, l.generator, l.turn) else None
  }

  lemma NextKeepsShape(s: System, l: Label)
    requires Shape(s) && Next(s, l).Some?
    ensures Shape(Next(s, l).value)
  {
  }

  function Run(s: System, labels: seq<Label>): Option<System>
    requires Shape(s)
    decreases |labels|
  {
    if labels == [] then Some(s)
    else
      var next := Next(s, labels[0]);
      if next.None? then None
      else
        NextKeepsShape(s, labels[0]);
        Run(next.value, labels[1..])
  }

  // ----- the invariant -----

  /** A generator that has a temporary file, under the name in its state. */
  predicate HasFile(pc: Pc) {
    pc.Securing? || pc.Writing? || pc.Linking? || pc.Removing? || pc.Cleaning?
  }

  /** The file of a generator is there under its own name, not the target's, with
      what has been written. */
  predicate Owns(s: System, g: nat)
    requires g < |s.generators|
  {
    var gen, dir := s.generators[g], s.dir;
    HasFile(gen.pc) ==>
      && gen.pc.path != s.target && gen.pc.path in dir.names && dir.names[gen.pc.path] == gen.pc.file
      && gen.pc.file in dir.files && gen.pc.file < dir.nextFile
      && (gen.pc.Securing? ==> dir.files[gen.pc.file] == [])
      && (gen.pc.Writing? ==> gen.pc.done <= |gen.contents| && dir.files[gen.pc.file] == gen.contents[..gen.pc.done])
      && ((gen.pc.Linking? || gen.pc.Removing?) ==> dir.files[gen.pc.file] == gen.contents)
  }

  /** The name it is about to create is not the target's, and its tries are counted. */
  predicate OpensElsewhere(s: System, g: nat)
    requires g < |s.generators|
  {
    var pc := s.generators[g].pc;
    && (pc.Opening? ==> pc.path != s.target && pc.tries < ATTEMPTS)
    && (pc.Allocating? ==> pc.tries <= ATTEMPTS)
  }

  /** No two generators have the same file, even if their names could collide. */
  predicate Apart(s: System) {
    forall g, h :: 0 <= g < h < |s.generators| && HasFile(s.generators[g].pc) && HasFile(s.generators[h].pc) ==>
      s.generators[g].pc.path != s.generators[h].pc.path && s.generators[g].pc.file != s.generators[h].pc.file
  }

  /** Nobody writes the file under the target's name any more. */
  predicate Settled(s: System) {
    s.target in s.dir.names ==>
      var file := s.dir.names[s.target];
      forall g :: 0 <= g < |s.generators| && HasFile(s.generators[g].pc) && s.generators[g].pc.file == file ==>
           s.generators[g].pc.Removing? || s.generators[g].pc.Cleaning?
  }

  /** What was linked is all of the installer's key. */
  predicate Complete(s: System) {
    s.installer.Some? ==>
      && s.installer.value < |s.generators| && s.target in s.dir.names
      && s.dir.names[s.target] in s.dir.files
      && s.dir.files[s.dir.names[s.target]] == s.generators[s.installer.value].contents
  }

  predicate Succeeded(s: System, g: nat)
    requires g < |s.generators|
  {
    s.generators[g].pc.Removing? || s.generators[g].pc == Finished(true)
  }

  predicate NamesKnown(dir: Dir) { forall n :: n in dir.names ==> dir.names[n] < dir.nextFile }

  ghost predicate Inv(s: System) {
    && Shape(s) && Apart(s) && Settled(s) && Complete(s) && NamesKnown(s.dir)
    && forall g :: 0 <= g < |s.generators| ==>
         Owns(s, g) && OpensElsewhere(s, g) && (Succeeded(s, g) ==> s.installer == Some(g))
  }

  /** Any directory, with any leftovers in it, and generators about to start. */
  predicate Initial(s: System) {
    && Shape(s) && s.installer.None? && NamesKnown(s.dir)
    && (forall f :: f in s.dir.files ==> f < s.dir.nextFile)
    && forall g :: 0 <= g < |s.generators| ==> s.generators[g].pc == Begin
  }

  lemma TempNameIsLonger(name: Bytes, pid: nat, sequence: nat)
    ensures TempName(name, pid, sequence) != name
  {
    assert |TempName(name, pid, sequence)| > |name|;
  }

  /** A step that changes nothing in the directory and gives no new file. */
  lemma PlainStepKeepsInv(s: System, g: nat, pc: Pc, sequences: seq<nat>)
    requires Inv(s) && g < |s.generators| && |sequences| == |s.sequences|
    requires HasFile(pc) ==> HasFile(s.generators[g].pc) && pc.path == s.generators[g].pc.path
                             && pc.file == s.generators[g].pc.file
    requires OpensElsewhere(At(s, g, pc), g)
    requires var t := At(s, g, pc); Owns(t, g) && (Succeeded(t, g) ==> s.installer == Some(g))
    requires s.target in s.dir.names && HasFile(pc) && pc.file == s.dir.names[s.target] ==>
               pc.Removing? || pc.Cleaning?
    ensures Inv(At(s, g, pc).(sequences := sequences))
  {
    var t := At(s, g, pc).(sequences := sequences);
    forall h | 0 <= h < |t.generators|
      ensures Owns(t, h) && OpensElsewhere(t, h) && (Succeeded(t, h) ==> t.installer == Some(h))
    {
      assert Owns(s, h) && OpensElsewhere(s, h);
      assert h != g ==> t.generators[h] == s.generators[h];
    }
  }

  lemma CreateKeepsInv(s: System, g: nat)
    requires Inv(s) && g < |s.generators| && s.generators[g].pc.Opening?
    requires s.generators[g].pc.path !in s.dir.names
    ensures Inv(Step(s, g, Works(0)).value)
  {
    var t, path := Step(s, g, Works(0)).value, s.generators[g].pc.path;
    forall h | 0 <= h < |t.generators|
      ensures Owns(t, h) && OpensElsewhere(t, h) && (Succeeded(t, h) ==> t.installer == Some(h))
      ensures h != g && HasFile(t.generators[h].pc) ==>
                t.generators[h].pc.path != path && t.generators[h].pc.file < s.dir.nextFile
    {
      assert Owns(s, h) && OpensElsewhere(s, h);
      assert h != g ==> t.generators[h] == s.generators[h];
    }
  }

  lemma WriteKeepsInv(s: System, g: nat, n: nat)
    requires Inv(s) && g < |s.generators| && s.generators[g].pc.Writing?
    requires s.generators[g].pc.done < n <= |s.generators[g].contents|
    ensures Step(s, g, Works(n)).Some? && Inv(Step(s, g, Works(n)).value)
  {
    var t, file := Step(s, g, Works(n)).value, s.generators[g].pc.file;
    assert Owns(s, g);
    forall h | 0 <= h < |t.generators|
      ensures Owns(t, h) && OpensElsewhere(t, h) && (Succeeded(t, h) ==> t.installer == Some(h))
    {
      assert Owns(s, h) && OpensElsewhere(s, h);
      assert h != g ==> t.generators[h] == s.generators[h];
      assert h != g && HasFile(t.generators[h].pc) ==> t.generators[h].pc.file != file;
    }
  }

  lemma LinkKeepsInv(s: System, g: nat)
    requires Inv(s) && g < |s.generators| && s.generators[g].pc.Linking? && s.target !in s.dir.names
    ensures Step(s, g, Works(0)).value.installer == Some(g)
    ensures Inv(Step(s, g, Works(0)).value)
  {
    assert Owns(s, g);
    var t, file := Step(s, g, Works(0)).value, s.generators[g].pc.file;
    forall h | 0 <= h < |t.generators|
      ensures Owns(t, h) && OpensElsewhere(t, h) && (Succeeded(t, h) ==> t.installer == Some(h))
      ensures h != g && HasFile(t.generators[h].pc) ==> t.generators[h].pc.file != file
    {
      assert Owns(s, h) && OpensElsewhere(s, h);
      assert h != g ==> t.generators[h] == s.generators[h];
    }
  }

  lemma RemoveKeepsInv(s: System, g: nat)
    requires Inv(s) && g < |s.generators| && (s.generators[g].pc.Removing? || s.generators[g].pc.Cleaning?)
    ensures Inv(Step(s, g, Works(0)).value)
  {
    assert Owns(s, g);
    var t, path := Step(s, g, Works(0)).value, s.generators[g].pc.path;
    forall h | 0 <= h < |t.generators|
      ensures Owns(t, h) && OpensElsewhere(t, h) && (Succeeded(t, h) ==> t.installer == Some(h))
    {
      assert Owns(s, h) && OpensElsewhere(s, h);
      assert h != g ==> t.generators[h] == s.generators[h];
      assert h != g && HasFile(t.generators[h].pc) ==> t.generators[h].pc.path != path;
    }
  }

  lemma NamingStepKeepsInv(s: System, g: nat, turn: Turn)
    requires Inv(s) && g < |s.generators| && Step(s, g, turn).Some?
    requires var pc := s.generators[g].pc; pc.Begin? || pc.Allocating? || pc.Opening?
    ensures Inv(Step(s, g, turn).value)
  {
    var gen, t := s.generators[g], Step(s, g, turn).value;
    assert Owns(s, g) && OpensElsewhere(s, g);
    if gen.pc.Allocating? && gen.pc.tries < ATTEMPTS {
      TempNameIsLonger(s.target, s.pids[gen.process], s.sequences[gen.process]);
    }
    if gen.pc.Opening? && gen.pc.path !in s.dir.names && turn.Works? {
      CreateKeepsInv(s, g);
    } else {
      PlainStepKeepsInv(s, g, t.generators[g].pc, t.sequences);
    }
  }

  lemma WritingStepKeepsInv(s: System, g: nat, turn: Turn)
    requires Inv(s) && g < |s.generators| && Step(s, g, turn).Some?
    requires var pc := s.generators[g].pc; pc.Securing? || pc.Writing?
    ensures Inv(Step(s, g, turn).value)
  {
    var gen, t := s.generators[g], Step(s, g, turn).value;
    assert Owns(s, g) && OpensElsewhere(s, g);
    if gen.pc.Writing? && turn.Works? && gen.pc.done < |gen.contents| {
      WriteKeepsInv(s, g, turn.n);
    } else {
      assert gen.contents[..0] == [] && gen.contents[..|gen.contents|] == gen.contents;
      PlainStepKeepsInv(s, g, t.generators[g].pc, t.sequences);
    }
  }

  lemma InstallingStepKeepsInv(s: System, g: nat, turn: Turn)
    requires Inv(s) && g < |s.generators| && Step(s, g, turn).Some?
    requires var pc := s.generators[g].pc; pc.Linking? || pc.Removing? || pc.Cleaning?
    ensures Inv(Step(s, g, turn).value)
  {
    var gen, t := s.generators[g], Step(s, g, turn).value;
    assert Owns(s, g);
    if turn.Fails? || (gen.pc.Linking? && s.target in s.dir.names) {
      PlainStepKeepsInv(s, g, t.generators[g].pc, t.sequences);
    } else if gen.pc.Linking? {
      LinkKeepsInv(s, g);
    } else {
      RemoveKeepsInv(s, g);
    }
  }

  lemma StepKeepsInv(s: System, g: nat, turn: Turn)
    requires Inv(s) && g < |s.generators| && Step(s, g, turn).Some?
    ensures Inv(Step(s, g, turn).value)
  {
    var pc := s.generators[g].pc;
    if pc.Begin? || pc.Allocating? || pc.Opening? {
      NamingStepKeepsInv(s, g, turn);
    } else if pc.Securing? || pc.Writing? {
      WritingStepKeepsInv(s, g, turn);
    } else {
      InstallingStepKeepsInv(s, g, turn);
    }
  }

  // ----- what stays, step by step -----

  /** The file that `name` leads to, if it does. */
  function Contents(dir: Dir, name: Bytes): (r: Option<Bytes>) {
    if Exists(dir, name) then Some(dir.files[dir.names[name]]) else None
  }

  /** Once there is something at the target it stays, byte for byte. */
  lemma TargetStays(s: System, g: nat, turn: Turn)
    requires Inv(s) && g < |s.generators| && s.target in s.dir.names && Step(s, g, turn).Some?
    ensures var t := Step(s, g, turn).value;
      && t.target == s.target && t.target in t.dir.names && t.installer == s.installer
      && t.dir.names[t.target] == s.dir.names[s.target]
      && Contents(t.dir, t.target) == Contents(s.dir, s.target)
  {
    assert Owns(s, g) && OpensElsewhere(s, g);
    assert s.dir.names[s.target] < s.dir.nextFile;
  }

  /** The only name a step takes away is the stepping generator's temporary one,
      and it still leads to the file that generator created. */
  lemma RemovesOnlyOwn(s: System, g: nat, turn: Turn, name: Bytes)
    requires Inv(s) && g < |s.generators| && Step(s, g, turn).Some?
    requires name in s.dir.names && name !in Step(s, g, turn).value.dir.names
    ensures var pc := s.generators[g].pc; HasFile(pc) && name == pc.path && s.dir.names[name] == pc.file
    ensures name != s.target
    ensures forall h :: 0 <= h < |s.generators| && h != g && HasFile(s.generators[h].pc) ==>
              name != s.generators[h].pc.path
  {
    assert Owns(s, g);
  }

  // ----- whole runs -----

  /** Everything `from` had is as it was, and what generators hold is new since. */
  ghost predicate Kept(from: System, s: System) {
    && s.target == from.target && |s.generators| == |from.generators| && from.dir.nextFile <= s.dir.nextFile
    && (forall n :: n in from.dir.names ==> n in s.dir.names && s.dir.names[n] == from.dir.names[n])
    && (forall f :: 0 <= f < from.dir.nextFile ==>
          (f in s.dir.files <==> f in from.dir.files) && (f in from.dir.files ==> s.dir.files[f] == from.dir.files[f]))
    && (forall g :: 0 <= g < |s.generators| ==>
          && s.generators[g].contents == from.generators[g].contents
          && (HasFile(s.generators[g].pc) ==>
                s.generators[g].pc.file >= from.dir.nextFile && s.generators[g].pc.path !in from.dir.names))
  }

  lemma StepKeeps(from: System, s: System, g: nat, turn: Turn)
    requires Inv(s) && NamesKnown(from.dir) && Kept(from, s) && g < |s.generators| && Step(s, g, turn).Some?
    ensures Kept(from, Step(s, g, turn).value)
  {
    assert Owns(s, g);
    var t := Step(s, g, turn).value;
    forall h | 0 <= h < |t.generators|
      ensures t.generators[h].contents == from.generators[h].contents
      ensures HasFile(t.generators[h].pc) ==>
                t.generators[h].pc.file >= from.dir.nextFile && t.generators[h].pc.path !in from.dir.names
    {
      assert h != g ==> t.generators[h] == s.generators[h];
    }
  }

  lemma InitialKeeps(s: System)
    requires Initial(s)
    ensures Inv(s) && Kept(s, s)
  {
  }

  lemma {:induction false} RunKeeps(from: System, s: System, labels: seq<Label>)
    requires Inv(s) && NamesKnown(from.dir) && Kept(from, s) && Run(s, labels).Some?
    ensures Inv(Run(s, labels).value) && Kept(from, Run(s, labels).value)
    decreases |labels|
  {
    if labels != [] {
      StepKeepsInv(s, labels[0].generator, labels[0].turn);
      StepKeeps(from, s, labels[0].generator, labels[0].turn);
      RunKeeps(from, Next(s, labels[0]).value, labels[1..]);
    }
  }

  /** Whatever was there before, however many generators start and wherever they
      are stopped: an existing target, dangling or not, is left alone and nobody
      reports success; otherwise the target is absent and nobody has succeeded, or
      it is one generator's complete key and only that one can report success. */
  lemma InstallIsAllOrNothing(from: System, labels: seq<Label>)
    requires Initial(from) && Run(from, labels).Some?
    ensures var s := Run(from, labels).value;
      && s.target == from.target && |s.generators| == |from.generators|
      && (from.target in from.dir.names ==>
            && s.target in s.dir.names && s.dir.names[s.target] == from.dir.names[s.target]
            && Contents(s.dir, s.target) == Contents(from.dir, s.target))
      && (from.target !in from.dir.names && s.target in s.dir.names ==>
            && s.installer.Some? && s.installer.value < |from.generators|
            && Contents(s.dir, s.target) == Some(from.generators[s.installer.value].contents))
      && forall g :: 0 <= g < |s.generators| && s.generators[g].pc == Finished(true) ==>
           && from.target !in from.dir.names && s.installer == Some(g)
           && Contents(s.dir, s.target) == Some(from.generators[g].contents)
  {
    InitialKeeps(from);
    RunKeeps(from, from, labels);
    InstallerIsNew(from, from, labels);
    var s := Run(from, labels).value;
    forall g | 0 <= g < |s.generators| && s.generators[g].pc == Finished(true)
      ensures s.installer == Some(g) && from.target !in from.dir.names
      ensures Contents(s.dir, s.target) == Some(from.generators[g].contents)
    {
      assert Succeeded(s, g);
    }
  }

  /** There is an installer exactly when the target is new. */
  ghost predicate Installed(from: System, s: System) {
    s.target == from.target && (s.installer.Some? <==> s.target in s.dir.names && from.target !in from.dir.names)
  }

  lemma {:induction false} InstallerIsNew(from: System, s: System, labels: seq<Label>)
    requires Inv(s) && Installed(from, s) && Run(s, labels).Some?
    requires from.target in from.dir.names ==> s.target in s.dir.names
    ensures Installed(from, Run(s, labels).value)
    decreases |labels|
  {
    if labels != [] {
      var g, turn := labels[0].generator, labels[0].turn;
      assert Owns(s, g) && OpensElsewhere(s, g);
      StepKeepsInv(s, g, turn);
      if s.target in s.dir.names {
        TargetStays(s, g, turn);
      }
      InstallerIsNew(from, Next(s, labels[0]).value, labels[1..]);
    }
  }

  /** Leftovers of earlier crashes and every other file in the directory survive. */
  lemma OtherFilesSurvive(from: System, labels: seq<Label>, name: Bytes)
    requires Initial(from) && Run(from, labels).Some? && name in from.dir.names
    ensures var s := Run(from, labels).value;
      && name in s.dir.names && s.dir.names[name] == from.dir.names[name]
      && Contents(s.dir, name) == Contents(from.dir, name)
  {
    InitialKeeps(from);
    RunKeeps(from, from, labels);
  }

  lemma {:induction false} RunConcat(s: System, a: seq<Label>, b: seq<Label>)
    requires Shape(s) && Run(s, a + b).Some?
    ensures Run(s, a).Some? && Shape(Run(s, a).value) && Run(Run(s, a).value, b) == Run(s, a + b)
    decreases |a|
  {
    if a == [] {
      assert a + b == b;
    } else {
      assert (a + b)[0] == a[0] && (a + b)[1..] == a[1..] + b;
      NextKeepsShape(s, a[0]);
      RunConcat(Next(s, a[0]).value, a[1..], b);
    }
  }

  lemma {:induction false} TargetStaysOverRuns(s: System, labels: seq<Label>)
    requires Inv(s) && s.target in s.dir.names && Run(s, labels).Some?
    ensures var t := Run(s, labels).value;
      && t.target == s.target && t.target in t.dir.names && t.installer == s.installer
      && Contents(t.dir, t.target) == Contents(s.dir, s.target)
    decreases |labels|
  {
    if labels != [] {
      StepKeepsInv(s, labels[0].generator, labels[0].turn);
      TargetStays(s, labels[0].generator, labels[0].turn);
      TargetStaysOverRuns(Next(s, labels[0]).value, labels[1..]);
    }
  }

  /** What any observer once finds at the target is what it finds ever after. */
  lemma InstalledKeyNeverChanges(from: System, a: seq<Label>, b: seq<Label>)
    requires Initial(from) && Run(from, a + b).Some?
    ensures Run(from, a).Some?
    ensures var s, t := Run(from, a).value, Run(from, a + b).value;
      s.target in s.dir.names ==>
        t.target in t.dir.names && Contents(t.dir, t.target) == Contents(s.dir, s.target) && t.installer == s.installer
  {
    RunConcat(from, a, b);
    InitialKeeps(from);
    RunKeeps(from, from, a);
    var s := Run(from, a).value;
    if s.target in s.dir.names {
      TargetStaysOverRuns(s, b);
    }
  }

  // ----- and it does install -----

  /** The temporary name of generator `g` at its `j`-th next try. */
  function NextName(s: System, g: nat, j: nat): Bytes
    requires Shape(s) && g < |s.generators|
  {
    TempName(s.target, s.pids[s.generators[g].process], s.sequences[s.generators[g].process] + j)
  }

  /** After `tries` tries, one of those left finds a name that is not taken. */
  predicate FindsName(s: System, g: nat, tries: nat)
    requires Shape(s) && g < |s.generators|
  {
    exists j :: 0 <= j < 100 - tries && NextName(s, g, j) !in s.dir.names
  }

  /** A generator with a free way to the target and to a temporary name. */
  predicate Free(s: System, g: nat)
    requires Shape(s) && g < |s.generators|
  {
    match s.generators[g].pc
    case Begin => s.target !in s.dir.names && FindsName(s, g, 0)
    case Allocating(tries) => s.target !in s.dir.names && FindsName(s, g, tries)
    case Opening(tries, path) =>
      s.target !in s.dir.names && (path !in s.dir.names || FindsName(s, g, tries + 1))
    case Removing(_, _) => true
    case Cleaning(_, _) => false
    case Finished(ok) => ok
    case _ => s.target !in s.dir.names
  }

  /** A bound on the working calls left: two for each try, and each write takes one
      byte at least. */
  function StepsToGo(gen: Generator): nat {
    var n := |gen.contents|;
    match gen.pc
    case Begin => n + 206
    case Allocating(tries) => if tries <= 100 then n + 5 + 2 * (100 - tries) else 1
    case Opening(tries, _) => if tries < 100 then n + 4 + 2 * (100 - tries) else 1
    case Securing(_, _) => n + 4
    case Writing(_, _, done) => if done < n then n - done + 3 else 3
    case Linking(_, _) => 2
    case Removing(_, _) => 1
    case Cleaning(_, _) => 1
    case Finished(_) => 0
  }

  predicate Own(labels: seq<Label>, g: nat) {
    forall i :: 0 <= i < |labels| ==> labels[i].generator == g && labels[i].turn.Works?
  }

  /** One try uses up one name. */
  lemma TryKeepsFree(s: System, g: nat, turn: Turn)
    requires Inv(s) && g < |s.generators| && turn.Works? && s.generators[g].pc.Allocating? && Step(s, g, turn).Some?
    ensures var t := Step(s, g, turn).value;
      Shape(t) && |t.generators| == |s.generators| && (Free(t, g) <==> Free(s, g))
  {
    var t, tries := Step(s, g, turn).value, s.generators[g].pc.tries;
    assert OpensElsewhere(s, g);
    if tries < 100 {
      assert forall j :: 1 <= j < 100 - tries ==> NextName(s, g, j) == NextName(t, g, j - 1);
      assert NextName(s, g, 0) == t.generators[g].pc.path;
      if FindsName(s, g, tries) {
        var j :| 0 <= j < 100 - tries && NextName(s, g, j) !in s.dir.names;
        assert j > 0 ==> NextName(t, g, j - 1) !in t.dir.names;
      }
      if FindsName(t, g, tries + 1) {
        var j :| 0 <= j < 100 - (tries + 1) && NextName(t, g, j) !in t.dir.names;
        assert NextName(s, g, j + 1) == NextName(t, g, j);
      }
    }
  }

  lemma SameNames(s: System, t: System, g: nat, tries: nat)
    requires Shape(s) && Shape(t) && g < |s.generators| && g < |t.generators|
    requires s.target == t.target && s.dir.names == t.dir.names && s.pids == t.pids && s.sequences == t.sequences
    requires s.generators[g].process == t.generators[g].process
    ensures FindsName(s, g, tries) <==> FindsName(t, g, tries)
  {
    assert forall j: nat :: NextName(s, g, j) == NextName(t, g, j);
  }

  lemma OtherStepKeepsFree(s: System, g: nat, turn: Turn)
    requires Inv(s) && g < |s.generators| && turn.Works? && !s.generators[g].pc.Allocating? && Step(s, g, turn).Some?
    ensures var t := Step(s, g, turn).value;
      Shape(t) && |t.generators| == |s.generators| && (Free(t, g) <==> Free(s, g))
  {
    assert Owns(s, g) && OpensElsewhere(s, g);
    var t := Step(s, g, turn).value;
    if s.generators[g].pc.Begin? {
      SameNames(s, t, g, 0);
    } else if s.generators[g].pc.Opening? && s.generators[g].pc.path in s.dir.names {
      SameNames(s, t, g, s.generators[g].pc.tries + 1);
    }
  }

  /** A working call of a generator opens no way to it and closes none. */
  lemma FreeStep(s: System, g: nat, turn: Turn)
    requires Inv(s) && g < |s.generators| && turn.Works? && Step(s, g, turn).Some?
    ensures var t := Step(s, g, turn).value;
      && Inv(t) && |t.generators| == |s.generators| && (Free(t, g) <==> Free(s, g))
      && StepsToGo(t.generators[g]) < StepsToGo(s.generators[g])
  {
    StepKeepsInv(s, g, turn);
    if s.generators[g].pc.Allocating? {
      TryKeepsFree(s, g, turn);
    } else {
      OtherStepKeepsFree(s, g, turn);
    }
    StepIsShorter(s, g, turn);
  }

  lemma StepIsShorter(s: System, g: nat, turn: Turn)
    requires Inv(s) && g < |s.generators| && turn.Works? && Step(s, g, turn).Some?
    ensures StepsToGo(Step(s, g, turn).value.generators[g]) < StepsToGo(s.generators[g])
  {
    assert Owns(s, g) && OpensElsewhere(s, g);
  }

  /** In every run of a generator's own working calls its way stays as free as it
      was, and the run is at most as long as the bound. */
  lemma {:induction false} LeftAloneStaysFree(s: System, g: nat, labels: seq<Label>)
    requires Inv(s) && g < |s.generators| && Own(labels, g) && Run(s, labels).Some?
    ensures var t := Run(s, labels).value;
      && Inv(t) && |t.generators| == |s.generators| && (Free(t, g) <==> Free(s, g))
      && |labels| + StepsToGo(t.generators[g]) <= StepsToGo(s.generators[g]) <= |s.generators[g].contents| + 206
    decreases |labels|
  {
    if labels != [] {
      FreeStep(s, g, labels[0].turn);
      assert forall i :: 0 <= i < |labels| - 1 ==> labels[1..][i] == labels[i + 1];
      LeftAloneStaysFree(Next(s, labels[0]).value, g, labels[1..]);
    } else {
      assert Owns(s, g) && OpensElsewhere(s, g);
    }
  }

  /** Such a run ends when no working call is left; and then success is reported, with
      the key installed, exactly when the way was free: the target absent, and one of
      the names of a hundred tries not taken. */
  lemma LeftAloneInstalls(s: System, g: nat, labels: seq<Label>)
    requires Inv(s) && g < |s.generators| && Own(labels, g) && Run(s, labels).Some?
    ensures var t := Run(s, labels).value;
      && Shape(t) && g < |t.generators|
      && (Next(t, Label(g, Works(|t.generators[g].contents|))).None? ==>
            && (t.generators[g].pc == Finished(true) <==> Free(s, g))
            && (t.generators[g].pc == Finished(true) ==>
                  && t.installer == Some(g)
                  && Contents(t.dir, t.target) == Some(t.generators[g].contents)))
  {
    LeftAloneStaysFree(s, g, labels);
    var t := Run(s, labels).value;
    assert Owns(t, g);
    assert t.generators[g].pc == Finished(true) ==> Succeeded(t, g);
  }

  /** There is such a run from every state in which a generator is free. */
  lemma {:induction false} LeftAloneCanInstall(s: System, g: nat) returns (labels: seq<Label>)
    requires Inv(s) && g < |s.generators| && Free(s, g)
    ensures Own(labels, g) && Run(s, labels).Some?
    ensures var t := Run(s, labels).value;
      Inv(t) && g < |t.generators| && t.generators[g].pc == Finished(true) && t.installer == Some(g)
    decreases StepsToGo(s.generators[g])
  {
    labels := [];
    if StepsToGo(s.generators[g]) == 0 {
      assert Succeeded(s, g);
    } else {
      assert Owns(s, g);
      var l := Label(g, Works(|s.generators[g].contents|));
      FreeStep(s, g, l.turn);
      var rest := LeftAloneCanInstall(Next(s, l).value, g);
      labels := [l] + rest;
      assert labels[1..] == rest;
    }
  }

  // ----- what a reported error means -----

  /** In the run, generator `g` failed to remove its temporary name after linking. */
  predicate FailsToRemove(s: System, labels: seq<Label>, g: nat)
    requires Shape(s) && g < |s.generators|
    decreases |labels|
  {
    labels != [] && Next(s, labels[0]).Some?
    && ((labels[0] == Label(g, Fails) && s.generators[g].pc.Removing?)
        || (NextKeepsGenerators(s, labels[0]); FailsToRemove(Next(s, labels[0]).value, labels[1..], g)))
  }

  lemma NextKeepsGenerators(s: System, l: Label)
    requires Shape(s) && Next(s, l).Some?
    ensures Shape(Next(s, l).value) && |Next(s, l).value.generators| == |s.generators|
  {
  }

  /** `failed` tells whether `g` failed so far in removing its temporary name. */
  predicate Tracks(s: System, g: nat, failed: bool)
    requires g < |s.generators|
  {
    var pc := s.generators[g].pc;
    && (s.installer == Some(g) <==> Succeeded(s, g) || failed)
    && (failed ==> pc.Cleaning? || pc == Finished(false))
  }

  lemma StepTracks(s: System, l: Label, g: nat, failed: bool)
    requires Inv(s) && g < |s.generators| && Tracks(s, g, failed) && Next(s, l).Some?
    ensures var t := Next(s, l).value;
      && |t.generators| == |s.generators|
      && Tracks(t, g, failed || (l == Label(g, Fails) && s.generators[g].pc.Removing?))
  {
    var h := l.generator;
    assert Owns(s, h);
    if h != g {
      assert Next(s, l).value.generators[g] == s.generators[g];
      if s.generators[h].pc.Linking? {
        assert s.installer == Some(g) ==> s.target in s.dir.names;
      }
    }
  }

  lemma {:induction false} RunTracks(s: System, labels: seq<Label>, g: nat, failed: bool)
    requires Inv(s) && g < |s.generators| && Tracks(s, g, failed) && Run(s, labels).Some?
    ensures var t := Run(s, labels).value;
      g < |t.generators| && Tracks(t, g, failed || FailsToRemove(s, labels, g))
    decreases |labels|
  {
    if labels != [] {
      var l := labels[0];
      StepKeepsInv(s, l.generator, l.turn);
      StepTracks(s, l, g, failed);
      RunTracks(Next(s, l).value, labels[1..], g, failed || (l == Label(g, Fails) && s.generators[g].pc.Removing?));
    }
  }

  /** A generator that reports an error has installed its key exactly when the
      call that failed it was the removal of the temporary name; otherwise an error
      means that it installed nothing. */
  lemma ErrorMeansNothingInstalled(from: System, labels: seq<Label>, g: nat)
    requires Initial(from) && g < |from.generators| && Run(from, labels).Some?
    ensures var s := Run(from, labels).value;
      g < |s.generators| &&
      (s.generators[g].pc == Finished(false) ==> (s.installer == Some(g) <==> FailsToRemove(from, labels, g)))
  {
    InitialKeeps(from);
    RunTracks(from, labels, g, false);
  }

  const ONE_GENERATOR: System :=
    System("key", [1], [0], Dir(map[], map[], 0), [Generator(0, "x", Begin)], None)

  lemma OneGeneratorIsFree()
    ensures Initial(ONE_GENERATOR) && Free(ONE_GENERATOR, 0)
  {
    assert NextName(ONE_GENERATOR, 0, 0) !in ONE_GENERATOR.dir.names;
  }

  /** The removal fails, and the second try works. */
  lemma RemovalFails(s: System, g: nat) returns (labels: seq<Label>)
    requires Inv(s) && g < |s.generators| && s.generators[g].pc.Removing?
    ensures Run(s, labels).Some?
    ensures var t := Run(s, labels).value;
      && Inv(t) && g < |t.generators| && t.generators[g].pc == Finished(false) && t.installer == Some(g)
  {
    var fails, works := Label(g, Fails), Label(g, Works(0));
    assert Owns(s, g) && Succeeded(s, g);
    StepKeepsInv(s, g, Fails);
    var t := Next(s, fails).value;
    assert Owns(t, g);
    StepKeepsInv(t, g, Works(0));
    assert [works][1..] == [];
    assert Run(t, [works]) == Next(t, works);
    labels := [fails] + [works];
    assert labels[1..] == [works];
  }

  lemma {:induction false} InstallsThenFails(s: System, g: nat) returns (labels: seq<Label>)
    requires Inv(s) && g < |s.generators| && Free(s, g) && StepsToGo(s.generators[g]) > 0
    ensures Run(s, labels).Some?
    ensures var t := Run(s, labels).value;
      && Inv(t) && g < |t.generators| && t.generators[g].pc == Finished(false) && t.installer == Some(g)
    decreases StepsToGo(s.generators[g])
  {
    if s.generators[g].pc.Removing? {
      labels := RemovalFails(s, g);
    } else {
      assert Owns(s, g);
      var l := Label(g, Works(|s.generators[g].contents|));
      FreeStep(s, g, l.turn);
      var rest := InstallsThenFails(Next(s, l).value, g);
      labels := [l] + rest;
      assert labels[1..] == rest;
    }
  }

  /** Such a run, from one generator about to start in an empty directory: it ends
      with an error reported and the key in place. */
  lemma ErrorAfterInstalling() returns (labels: seq<Label>)
    ensures Initial(ONE_GENERATOR) && Run(ONE_GENERATOR, labels).Some?
    ensures var s := Run(ONE_GENERATOR, labels).value;
      && |s.generators| == 1 && s.generators[0].pc == Finished(false) && s.installer == Some(0)
      && Contents(s.dir, s.target) == Some(ONE_GENERATOR.generators[0].contents)
  {
    OneGeneratorIsFree();
    InitialKeeps(ONE_GENERATOR);
    labels := InstallsThenFails(ONE_GENERATOR, 0);
    RunKeeps(ONE_GENERATOR, ONE_GENERATOR, labels);
  }

  // ----- temporary names -----

  lemma DecimalsDiffer(p: nat, a: Bytes, q: nat, b: Bytes)
    requires Decimal(p) + ['.'] + a == Decimal(q) + ['.'] + b
    ensures p == q && a == b
  {
    FindIn(Decimal(p), '.', a);
    FindIn(Decimal(q), '.', b);
    var s, n := Decimal(p) + ['.'] + a, |Decimal(p)|;
    assert Decimal(p) == s[..n] == Decimal(q) && a == s[n + 1..] == b;
    DecimalRoundTrip(p);
    DecimalRoundTrip(q);
  }

  /** Two processes, or two calls of one process, never try the same name. */
  lemma TempNamesDiffer(name: Bytes, p: nat, n: nat, q: nat, m: nat)
    requires TempName(name, p, n) == TempName(name, q, m)
    ensures p == q && n == m
  {
    var lead := "." + name + ".";
    NameIs(name, p, n, lead);
    NameIs(name, q, m, lead);
    SameRest(lead, Decimal(p) + ['.'] + (Decimal(n) + ['.'] + "tmp"),
             Decimal(q) + ['.'] + (Decimal(m) + ['.'] + "tmp"));
    DecimalsDiffer(p, Decimal(n) + ['.'] + "tmp", q, Decimal(m) + ['.'] + "tmp");
    DecimalsDiffer(n, "tmp", m, "tmp");
  }

  lemma NameIs(name: Bytes, p: nat, n: nat, lead: Bytes)
    requires lead == "." + name + "."
    ensures TempName(name, p, n) == lead + (Decimal(p) + ['.'] + (Decimal(n) + ['.'] + "tmp"))
  {
    assert ['.'] + "tmp" == ".tmp" && "." == ['.'];
  }

  predicate InUse(s: System, n: Bytes) {
    exists g :: 0 <= g < |s.generators| && HasFile(s.generators[g].pc) && s.generators[g].pc.path == n
  }

  /** Every name is an earlier one, the target, or a temporary name still in use. */
  ghost predicate Tidy(from: System, s: System) {
    forall n :: n in s.dir.names ==>
      n in from.dir.names || n == s.target
      || InUse(s, n)
  }

  /** No second try of a removal fails. */
  predicate CleansUp(s: System, labels: seq<Label>)
    requires Shape(s)
    decreases |labels|
  {
    labels == [] || Next(s, labels[0]).None? ||
    (var g := labels[0].generator;
     (g < |s.generators| && s.generators[g].pc.Cleaning? ==> labels[0].turn.Works?)
     && (NextKeepsShape(s, labels[0]); CleansUp(Next(s, labels[0]).value, labels[1..])))
  }

  lemma StillInUse(s: System, t: System, g: nat, n: Bytes)
    requires InUse(s, n) && |t.generators| == |s.generators|
    requires forall h :: 0 <= h < |s.generators| && h != g ==> t.generators[h] == s.generators[h]
    requires g < |s.generators| && HasFile(s.generators[g].pc) ==>
               s.generators[g].pc.path != n || (HasFile(t.generators[g].pc) && t.generators[g].pc.path == n)
    ensures InUse(t, n)
  {
    var h :| 0 <= h < |s.generators| && HasFile(s.generators[h].pc) && s.generators[h].pc.path == n;
    assert h != g ==> t.generators[h] == s.generators[h];
  }

  lemma StepStaysTidy(from: System, s: System, g: nat, turn: Turn)
    requires Inv(s) && Tidy(from, s) && g < |s.generators| && Step(s, g, turn).Some?
    requires s.generators[g].pc.Cleaning? ==> turn.Works?
    ensures Tidy(from, Step(s, g, turn).value)
  {
    var t := Step(s, g, turn).value;
    assert Owns(s, g);
    forall n | n in t.dir.names && n !in from.dir.names && n != t.target
      ensures InUse(t, n)
    {
      if n in s.dir.names {
        StillInUse(s, t, g, n);
      } else {
        assert HasFile(t.generators[g].pc) && t.generators[g].pc.path == n;
      }
    }
  }

  lemma {:induction false} RunStaysTidy(from: System, s: System, labels: seq<Label>)
    requires Inv(s) && Tidy(from, s) && Run(s, labels).Some? && CleansUp(s, labels)
    ensures Tidy(from, Run(s, labels).value)
    decreases |labels|
  {
    if labels != [] {
      StepKeepsInv(s, labels[0].generator, labels[0].turn);
      StepStaysTidy(from, s, labels[0].generator, labels[0].turn);
      RunStaysTidy(from, Next(s, labels[0]).value, labels[1..]);
    }
  }

  /** Unless a removal fails twice, when all generators are done nothing new is left in
      the directory but the target. */
  lemma NothingLeftBehind(from: System, labels: seq<Label>, name: Bytes)
    requires Initial(from) && Run(from, labels).Some? && CleansUp(from, labels)
    requires var s := Run(from, labels).value;
      && (forall g :: 0 <= g < |s.generators| ==> s.generators[g].pc.Finished?)
      && name in s.dir.names && name !in from.dir.names
    ensures name == from.target
  {
    InitialKeeps(from);
    RunStaysTidy(from, from, labels);
    RunKeeps(from, from, labels);
    var s := Run(from, labels).value;
    assert forall g :: 0 <= g < |s.generators| ==> !HasFile(s.generators[g].pc);
  }

  // ----- refusals and failures -----

  /** Not started, or refused. */
  predicate Refused(s: System) {
    forall g :: 0 <= g < |s.generators| ==> s.generators[g].pc == Begin || s.generators[g].pc == Finished(false)
  }

  lemma {:induction false} RefusalsTouchNothing(s: System, labels: seq<Label>)
    requires Shape(s) && Refused(s) && Exists(s.dir, s.target) && Run(s, labels).Some?
    ensures Run(s, labels).value.dir == s.dir && Refused(Run(s, labels).value)
    decreases |labels|
  {
    if labels != [] {
      NextKeepsShape(s, labels[0]);
      RefusalsTouchNothing(Next(s, labels[0]).value, labels[1..]);
    }
  }

  /** When the target exists, no generator touches the directory or reports success:
      not even a temporary file is made. */
  lemma ExistingTargetRefused(from: System, labels: seq<Label>)
    requires Initial(from) && Exists(from.dir, from.target) && Run(from, labels).Some?
    ensures Run(from, labels).value.dir == from.dir
    ensures forall g :: 0 <= g < |Run(from, labels).value.generators| ==>
              Run(from, labels).value.generators[g].pc != Finished(true)
  {
    RefusalsTouchNothing(from, labels);
  }

  predicate Failed(pc: Pc) { pc.Cleaning? || pc == Finished(false) }

  /** Some call of generator `g` fails in the run; taking a number is no call. */
  predicate SomeCallFails(s: System, labels: seq<Label>, g: nat)
    requires Shape(s) && g < |s.generators|
    decreases |labels|
  {
    labels != [] && Next(s, labels[0]).Some?
    && ((labels[0] == Label(g, Fails) && !s.generators[g].pc.Allocating?)
        || (NextKeepsGenerators(s, labels[0]); SomeCallFails(Next(s, labels[0]).value, labels[1..], g)))
  }

  lemma {:induction false} RunFails(s: System, labels: seq<Label>, g: nat)
    requires Shape(s) && g < |s.generators| && Run(s, labels).Some?
    requires Failed(s.generators[g].pc) || SomeCallFails(s, labels, g)
    ensures var t := Run(s, labels).value; g < |t.generators| && Failed(t.generators[g].pc)
    decreases |labels|
  {
    if labels != [] {
      NextKeepsGenerators(s, labels[0]);
      RunFails(Next(s, labels[0]).value, labels[1..], g);
    }
  }

  /** A generator reports success only when none of its calls failed. */
  lemma SuccessMeansAllWorked(from: System, labels: seq<Label>, g: nat)
    requires Initial(from) && g < |from.generators| && Run(from, labels).Some?
    ensures var s := Run(from, labels).value;
      g < |s.generators| && (s.generators[g].pc == Finished(true) ==> !SomeCallFails(from, labels, g))
  {
    InitialKeeps(from);
    RunKeeps(from, from, labels);
    if SomeCallFails(from, labels, g) {
      RunFails(from, labels, g);
    }
  }
}
