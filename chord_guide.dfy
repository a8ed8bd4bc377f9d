/**
 * The piano guide of app.py: a select box of fourteen chords and a fixed
 * table from each chord to the Latin names of its three notes.  The guide
 * only looks a choice up; the pitch functions below exist to state what the
 * table's entries mean and are not part of the program.
 */
module ChordGuide {
  import opened Wrappers

  /** The choices offered by the select box, in its order. */
  const GuideOptions: seq<string> := ["C", "Cm", "D", "Dm", "E", "Em", "F", "Fm", "G", "Gm", "A", "Am", "B", "Bm"]

  /** The table `notas`. */
  const GuideNotes: map<string, string> := map[
    "C" := "Do-Mi-Sol", "Cm" := "Do-Mib-Sol", "D" := "Re-Fa#-La", "Dm" := "Re-Fa-La",
    "E" := "Mi-Sol#-Si", "Em" := "Mi-Sol-Si", "F" := "Fa-La-Do", "Fm" := "Fa-Lab-Do",
    "G" := "Sol-Si-Re", "Gm" := "Sol-Sib-Re", "A" := "La-Do#-Mi", "Am" := "La-Do-Mi",
    "B" := "Si-Re#-Fa#", "Bm" := "Si-Re-Fa#"
  ]

  // ---------------------------------------------------------------------------
  // What an entry means (specification only)

  /** The pitch class of a letter name, with C as 0. */
  ghost function LetterPitch(c: char): Option<int> {
    match c
    case 'C' => Some(0)
    case 'D' => Some(2)
    case 'E' => Some(4)
    case 'F' => Some(5)
    case 'G' => Some(7)
    case 'A' => Some(9)
    case 'B' => Some(11)
    case _ => None
  }

  /** The pitch class of a Latin name without accidental. */
  ghost function LatinBase(name: string): Option<int> {
    if name == "Do" then Some(0)
    else if name == "Re" then Some(2)
    else if name == "Mi" then Some(4)
    else if name == "Fa" then Some(5)
    else if name == "Sol" then Some(7)
    else if name == "La" then Some(9)
    else if name == "Si" then Some(11)
    else None
  }

  /** The pitch class of a Latin name with an optional `#` (a semitone up) or `b` (a semitone down). */
  ghost function LatinPitch(name: string): Option<int> {
    if LatinBase(name).Some? then LatinBase(name)
    else if |name| >= 2 && name[|name| - 1] == '#' && LatinBase(name[..|name| - 1]).Some? then
      Some((LatinBase(name[..|name| - 1]).value + 1) % 12)
    else if |name| >= 2 && name[|name| - 1] == 'b' && LatinBase(name[..|name| - 1]).Some? then
      Some((LatinBase(name[..|name| - 1]).value + 11) % 12)
    else None
  }

  /** `notes` is three Latin names joined by `-`: the root, the third `third` semitones up and the fifth. */
  ghost predicate SpellsTriad(notes: string, root: int, third: int) {
    exists a: string, b: string, c: string ::
      && notes == a + "-" + b + "-" + c
      && LatinPitch(a) == Some(root)
      && LatinPitch(b) == Some((root + third) % 12)
      && LatinPitch(c) == Some((root + 7) % 12)
  }

  /** A major chord is its letter; a minor chord its letter and `m`. */
  ghost predicate NamesTriad(choice: string, notes: string) {
    && |choice| >= 1
    && LetterPitch(choice[0]).Some?
    && (|choice| == 1 || choice[1..] == "m")
    && SpellsTriad(notes, LetterPitch(choice[0]).value, if |choice| == 1 then 4 else 3)
  }

  /** An entry `a-b-c` for `choice` spells its chord when the three names have the right pitches. */
  lemma Entry(choice: string, a: string, b: string, c: string)
    requires |choice| >= 1 && LetterPitch(choice[0]).Some? && (|choice| == 1 || choice[1..] == "m")
    requires var root, third := LetterPitch(choice[0]).value, if |choice| == 1 then 4 else 3;
      && LatinPitch(a) == Some(root)
      && LatinPitch(b) == Some((root + third) % 12)
      && LatinPitch(c) == Some((root + 7) % 12)
    ensures NamesTriad(choice, a + "-" + b + "-" + c)
  {
  }

  lemma EntryC()
    ensures NamesTriad("C", GuideNotes["C"])
  {
    Entry("C", "Do", "Mi", "Sol");
    assert GuideNotes["C"] == "Do" + "-" + "Mi" + "-" + "Sol";
  }

  lemma EntryCm()
    ensures NamesTriad("Cm", GuideNotes["Cm"])
  {
    Entry("Cm", "Do", "Mib", "Sol");
    assert GuideNotes["Cm"] == "Do" + "-" + "Mib" + "-" + "Sol";
  }

  lemma EntryD()
    ensures NamesTriad("D", GuideNotes["D"])
  {
    Entry("D", "Re", "Fa#", "La");
    assert GuideNotes["D"] == "Re" + "-" + "Fa#" + "-" + "La";
  }

  lemma EntryDm()
    ensures NamesTriad("Dm", GuideNotes["Dm"])
  {
    Entry("Dm", "Re", "Fa", "La");
    assert GuideNotes["Dm"] == "Re" + "-" + "Fa" + "-" + "La";
  }

  lemma EntryE()
    ensures NamesTriad("E", GuideNotes["E"])
  {
    Entry("E", "Mi", "Sol#", "Si");
    assert GuideNotes["E"] == "Mi" + "-" + "Sol#" + "-" + "Si";
  }

  lemma EntryEm()
    ensures NamesTriad("Em", GuideNotes["Em"])
  {
    Entry("Em", "Mi", "Sol", "Si");
    assert GuideNotes["Em"] == "Mi" + "-" + "Sol" + "-" + "Si";
  }

  lemma EntryF()
    ensures NamesTriad("F", GuideNotes["F"])
  {
    Entry("F", "Fa", "La", "Do");
    assert GuideNotes["F"] == "Fa" + "-" + "La" + "-" + "Do";
  }

  lemma EntryFm()
    ensures NamesTriad("Fm", GuideNotes["Fm"])
  {
    Entry("Fm", "Fa", "Lab", "Do");
    assert GuideNotes["Fm"] == "Fa" + "-" + "Lab" + "-" + "Do";
  }

  lemma EntryG()
    ensures NamesTriad("G", GuideNotes["G"])
  {
    Entry("G", "Sol", "Si", "Re");
    assert GuideNotes["G"] == "Sol" + "-" + "Si" + "-" + "Re";
  }

  lemma EntryGm()
    ensures NamesTriad("Gm", GuideNotes["Gm"])
  {
    assert "Sib"[..2] == "Si";
    Entry("Gm", "Sol", "Sib", "Re");
    assert GuideNotes["Gm"] == "Sol" + "-" + "Sib" + "-" + "Re";
  }

  lemma EntryA()
    ensures NamesTriad("A", GuideNotes["A"])
  {
    Entry("A", "La", "Do#", "Mi");
    assert GuideNotes["A"] == "La" + "-" + "Do#" + "-" + "Mi";
  }

  lemma EntryAm()
    ensures NamesTriad("Am", GuideNotes["Am"])
  {
    Entry("Am", "La", "Do", "Mi");
    assert GuideNotes["Am"] == "La" + "-" + "Do" + "-" + "Mi";
  }

  lemma EntryB()
    ensures NamesTriad("B", GuideNotes["B"])
  {
    Entry("B", "Si", "Re#", "Fa#");
    assert GuideNotes["B"] == "Si" + "-" + "Re#" + "-" + "Fa#";
  }

  lemma EntryBm()
    ensures NamesTriad("Bm", GuideNotes["Bm"])
  {
    Entry("Bm", "Si", "Re", "Fa#");
    assert GuideNotes["Bm"] == "Si" + "-" + "Re" + "-" + "Fa#";
  }

  /** Every entry of the table spells the major or minor triad its key names. */
  lemma GuideEntriesAreTriads(choice: string)
    requires choice in GuideOptions
    ensures choice in GuideNotes && NamesTriad(choice, GuideNotes[choice])
  {
    if choice == "C" {
      EntryC();
    } else if choice == "Cm" {
      EntryCm();
    } else if choice == "D" {
      EntryD();
    } else if choice == "Dm" {
      EntryDm();
    } else if choice == "E" {
      EntryE();
    } else if choice == "Em" {
      EntryEm();
    } else if choice == "F" {
      EntryF();
    } else if choice == "Fm" {
      EntryFm();
    } else if choice == "G" {
      EntryG();
    } else if choice == "Gm" {
      EntryGm();
    } else if choice == "A" {
      EntryA();
    } else if choice == "Am" {
      EntryAm();
    } else if choice == "B" {
      EntryB();
    } else {
      assert choice == "Bm";
      EntryBm();
    }
  }

  // ---------------------------------------------------------------------------
  // The lookup

  /** `notas[acorde_guia]`: defined for every choice of the select box, and the notes of that chord. */
  function GuideLookup(choice: string): (notes: string)
    requires choice in GuideOptions
    ensures choice in GuideNotes && notes == GuideNotes[choice]
    ensures NamesTriad(choice, notes)
  {
    GuideEntriesAreTriads(choice);
    GuideNotes[choice]
  }

  /** The select box offers exactly the chords of the table. */
  lemma OptionsAreKeys()
    ensures forall o :: o in GuideOptions <==> o in GuideNotes
  {
  }
}
