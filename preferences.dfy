/** The preference catalogue, the table of default values derived from it,
    and the rule that picks the source a sound effect plays from. */
module Preferences {
  import opened Wrappers

  /** An upper bound of a numeric preference; several are unbounded. */
  datatype Bound = Finite(n: int) | Infinity

  /** A default value; every number in the catalogue is an integer. */
  datatype Value = Flag(b: bool) | Text(s: string) | Number(n: int)

  /** The `type` tag of a preference with the fields that belong to it. */
  datatype Kind =
    | BooleanKind
    | StringKind
    | SoundsKind(options: map<string, string>)
    | NumberKind(min: int, max: Bound, step: int, range: bool)

  datatype Preference = Preference(ref: string, kind: Kind, value: Value, meta: string)

  datatype Section = Section(title: string, preferences: seq<Preference>)

  // ---------------------------------------------------------------------
  // The catalogue
  // ---------------------------------------------------------------------

  /** Sound names and their sources; the sources are bundled asset locators,
      kept here as opaque strings. "Bez skaņas" (no sound) maps to "". */
  const SoundEffects: map<string, string> := map[
    "Bez skaņas" := "",
    "Android" := "$lib/assets/sound/android.mp3",
    "Caramelldansen" := "$lib/assets/sound/caramelldansen.mp3",
    "Pareizi" := "$lib/assets/sound/correct.mp3",
    "Giga Chad" := "$lib/assets/sound/gigachad.mp3",
    "iPhone" := "$lib/assets/sound/iphone.opus",
    "Nauda" := "$lib/assets/sound/kaching.mp3",
    "Kaķis" := "$lib/assets/sound/meow.mp3",
    "Minecraft" := "$lib/assets/sound/minecraft.mp3",
    "Sirēna" := "$lib/assets/sound/siren.mp3",
    "To Be Continued" := "$lib/assets/sound/to_be_continued.mp3",
    "Windows" := "$lib/assets/sound/windows.mp3"
  ]

  /** The default user preferences, their bounds and descriptions. */
  const Catalogue: seq<Section> := [
    Section("Taimeris", [
      Preference("pomodoro", NumberKind(1, Infinity, 1, false), Number(25), "Pomodoro ilgums (min)"),
      Preference("shortBreak", NumberKind(1, Infinity, 1, false), Number(5), "Īsās pauzes ilgums (min)"),
      Preference("longBreak", NumberKind(1, Infinity, 1, false), Number(15), "Garās pauzes ilgums (min)")
    ]),
    Section("Pomodoro", [
      Preference("autoSwitchSegment", BooleanKind, Flag(true), "Automātiski pārslēgt ciklus"),
      Preference("autoStartPomodoro", BooleanKind, Flag(true), "Automātiski uzsākt pomodoro"),
      Preference("autoStartBreaks", BooleanKind, Flag(true), "Automātiski uzsākt pauzes"),
      Preference("cyclesBeforeLongBreak", NumberKind(1, Infinity, 1, false), Number(4), "Garās pauzes cikli")
    ]),
    Section("Paziņojumi", [
      Preference("pomodoroSoundEffect", SoundsKind(SoundEffects), Text("Caramelldansen"), "Pomodoro skaņa"),
      Preference("breakSoundEffect", SoundsKind(SoundEffects), Text("To Be Continued"), "Pauzes skaņa"),
      Preference("audioVolume", NumberKind(1, Finite(100), 1, true), Number(50), "Skaļums")
    ])
  ]

  /** The default has the type the tag names and lies within what the
      preference allows: a sound among the options, a number within its bounds. */
  predicate ValidDefault(p: Preference)
  {
    match p.kind
    case BooleanKind => p.value.Flag?
    case StringKind => p.value.Text?
    case SoundsKind(options) => p.value.Text? && p.value.s in options
    case NumberKind(min, max, _, _) =>
      p.value.Number? && min <= p.value.n && (max.Finite? ==> p.value.n <= max.n)
  }

  /** Every preference of the sections, in section order. */
  function Flatten(sections: seq<Section>): (r: seq<Preference>)
  {
    if sections == [] then []
    else Flatten(sections[..|sections| - 1]) + sections[|sections| - 1].preferences
  }

  /** Flattening loses no preference and adds none: its elements are exactly
      the preferences of the sections. */
  lemma {:induction false} FlattenMembers(sections: seq<Section>)
    ensures forall i, j :: 0 <= i < |sections| && 0 <= j < |sections[i].preferences| ==>
      sections[i].preferences[j] in Flatten(sections)
    ensures forall p :: p in Flatten(sections) ==>
      exists i, j ::
        0 <= i < |sections| && 0 <= j < |sections[i].preferences| && sections[i].preferences[j] == p
  {
    if sections != [] {
      var init := sections[..|sections| - 1];
      var last := |sections| - 1;
      FlattenMembers(init);
      forall i, j | 0 <= i < |sections| && 0 <= j < |sections[i].preferences|
        ensures sections[i].preferences[j] in Flatten(sections)
      {
        if i < last {
          assert init[i] == sections[i];
        }
      }
      forall p | p in Flatten(sections)
        ensures exists i, j ::
          0 <= i < |sections| && 0 <= j < |sections[i].preferences| && sections[i].preferences[j] == p
      {
        if p in Flatten(init) {
          var i, j :| 0 <= i < |init| && 0 <= j < |init[i].preferences| && init[i].preferences[j] == p;
          assert sections[i] == init[i];
        } else {
          assert p in sections[last].preferences;
          var j :| 0 <= j < |sections[last].preferences| && sections[last].preferences[j] == p;
        }
      }
    }
  }

  /** The catalogue's preferences in order. */
  lemma FlattenCatalogue()
    ensures Flatten(Catalogue) == Catalogue[0].preferences + Catalogue[1].preferences + Catalogue[2].preferences
  {
    var one, two := Catalogue[..1], Catalogue[..2];
    assert one[..0] == [];
    assert Flatten(one) == Catalogue[0].preferences;
    assert two[..1] == one;
    assert Flatten(two) == Catalogue[0].preferences + Catalogue[1].preferences;
    assert Catalogue[..2] == two;
  }

  /** The defaults of one section are valid, and its sound preferences offer
      exactly the sound-effect table. */
  predicate SectionIsValid(section: Section)
  {
    forall p | p in section.preferences ::
      ValidDefault(p) && (p.kind.SoundsKind? ==> p.kind.options == SoundEffects)
  }

  /** Every default of the catalogue is valid, and the sound preferences
      offer exactly the sound-effect table. */
  lemma CatalogueIsValid()
    ensures forall section | section in Catalogue :: SectionIsValid(section)
  {
    TimerSectionIsValid();
    PomodoroSectionIsValid();
    NotificationsSectionIsValid();
  }

  lemma TimerSectionIsValid()
    ensures SectionIsValid(Catalogue[0])
  {
  }

  lemma PomodoroSectionIsValid()
    ensures SectionIsValid(Catalogue[1])
  {
  }

  lemma NotificationsSectionIsValid()
    ensures SectionIsValid(Catalogue[2])
  {
    var prefs := Catalogue[2].preferences;
    assert ValidDefault(prefs[0]) && ValidDefault(prefs[1]);
  }

  // ---------------------------------------------------------------------
  // defaultPreferenceValues
  // ---------------------------------------------------------------------

  /** The table filled by writing each preference's value under its ref in
      order, so that a later preference overwrites an earlier one. */
  function Collect(prefs: seq<Preference>): (r: map<string, Value>)
  {
    if prefs == [] then map[]
    else Collect(prefs[..|prefs| - 1])[prefs[|prefs| - 1].ref := prefs[|prefs| - 1].value]
  }

  /** The refs that occur in a list of preferences. */
  function Refs(prefs: seq<Preference>): (r: set<string>)
  {
    set p | p in prefs :: p.ref
  }

  /** The table has a key for exactly the refs that occur. */
  lemma {:induction false} CollectKeys(prefs: seq<Preference>)
    ensures Collect(prefs).Keys == Refs(prefs)
  {
    if prefs != [] {
      var init := prefs[..|prefs| - 1];
      CollectKeys(init);
      assert prefs == init + [prefs[|prefs| - 1]];
    }
  }

  /** Writing one more preference updates the table under its ref. */
  lemma CollectSnoc(prefs: seq<Preference>, p: Preference)
    ensures Collect(prefs + [p]) == Collect(prefs)[p.ref := p.value]
  {
    assert (prefs + [p])[..|prefs|] == prefs;
  }

  /** Writing the preference at `j` of a section after the table built so far. */
  lemma CollectStep(before: seq<Preference>, prefs: seq<Preference>, j: int)
    requires 0 <= j < |prefs|
    ensures Collect(before + prefs[..j + 1]) == Collect(before + prefs[..j])[prefs[j].ref := prefs[j].value]
  {
    assert before + prefs[..j + 1] == (before + prefs[..j]) + [prefs[j]];
    CollectSnoc(before + prefs[..j], prefs[j]);
  }

  /** Flattening one more section appends its preferences. */
  lemma FlattenSnoc(sections: seq<Section>, i: int)
    requires 0 <= i < |sections|
    ensures Flatten(sections[..i + 1]) == Flatten(sections[..i]) + sections[i].preferences[..|sections[i].preferences|]
  {
    assert sections[..i + 1][..i] == sections[..i];
    assert sections[i].preferences[..|sections[i].preferences|] == sections[i].preferences;
  }

  /** A ref maps to the value of its last occurrence. */
  lemma {:induction false} CollectLastWins(prefs: seq<Preference>, i: int)
    requires 0 <= i < |prefs|
    requires forall j :: i < j < |prefs| ==> prefs[j].ref != prefs[i].ref
    ensures prefs[i].ref in Collect(prefs)
    ensures Collect(prefs)[prefs[i].ref] == prefs[i].value
  {
    if i < |prefs| - 1 {
      var init := prefs[..|prefs| - 1];
      assert forall j :: i < j < |init| ==> init[j] == prefs[j];
      CollectLastWins(init, i);
    }
  }

  /** Builds the table of defaults with the nested section and preference loops. */
  method DefaultPreferenceValues(sections: seq<Section>) returns (defaults: map<string, Value>)
    ensures defaults == Collect(Flatten(sections))
    ensures defaults.Keys == Refs(Flatten(sections))
  {
    defaults := map[];
    for i := 0 to |sections|
      invariant defaults == Collect(Flatten(sections[..i]))
    {
      var section := sections[i];
      ghost var before := Flatten(sections[..i]);
      assert before + section.preferences[..0] == before;
      for j := 0 to |section.preferences|
        invariant defaults == Collect(before + section.preferences[..j])
      {
        var preference := section.preferences[j];
        CollectStep(before, section.preferences, j);
        defaults := defaults[preference.ref := preference.value];
      }
      FlattenSnoc(sections, i);
    }
    assert sections[..|sections|] == sections;
    CollectKeys(Flatten(sections));
  }

  /** The table after the first section of the catalogue. */
  lemma CatalogueDefaultsOfTimer()
    ensures |Flatten(Catalogue)| == 10 && Collect(Flatten(Catalogue)[..3]) == map["pomodoro" := Number(25),
      "shortBreak" := Number(5),
      "longBreak" := Number(15)]
  {
    var ps := Flatten(Catalogue);
    FlattenCatalogue();
    assert ps[..0] == [];
    assert Collect(ps[..1]) == map["pomodoro" := Number(25)] by {
      assert ps[..1] == ps[..0] + [ps[0]];
      CollectSnoc(ps[..0], ps[0]);
    }
    assert Collect(ps[..2]) == map["pomodoro" := Number(25), "shortBreak" := Number(5)] by {
      assert ps[..2] == ps[..1] + [ps[1]];
      CollectSnoc(ps[..1], ps[1]);
    }
    assert Collect(ps[..3]) == map["pomodoro" := Number(25), "shortBreak" := Number(5), "longBreak" := Number(15)] by {
      assert ps[..3] == ps[..2] + [ps[2]];
      CollectSnoc(ps[..2], ps[2]);
    }
  }

  /** The table after the first two sections of the catalogue. */
  lemma CatalogueDefaultsOfPomodoro()
    ensures |Flatten(Catalogue)| == 10 && Collect(Flatten(Catalogue)[..7]) == map["pomodoro" := Number(25),
      "shortBreak" := Number(5),
      "longBreak" := Number(15),
      "autoSwitchSegment" := Flag(true),
      "autoStartPomodoro" := Flag(true),
      "autoStartBreaks" := Flag(true),
      "cyclesBeforeLongBreak" := Number(4)]
  {
    var ps := Flatten(Catalogue);
    FlattenCatalogue();
    CatalogueDefaultsOfTimer();
    assert Collect(ps[..4]) == map["pomodoro" := Number(25), "shortBreak" := Number(5), "longBreak" := Number(15), "autoSwitchSegment" := Flag(true)] by {
      assert ps[..4] == ps[..3] + [ps[3]];
      CollectSnoc(ps[..3], ps[3]);
    }
    assert Collect(ps[..5]) == map["pomodoro" := Number(25), "shortBreak" := Number(5), "longBreak" := Number(15), "autoSwitchSegment" := Flag(true), "autoStartPomodoro" := Flag(true)] by {
      assert ps[..5] == ps[..4] + [ps[4]];
      CollectSnoc(ps[..4], ps[4]);
    }
    assert Collect(ps[..6]) == map["pomodoro" := Number(25), "shortBreak" := Number(5), "longBreak" := Number(15), "autoSwitchSegment" := Flag(true), "autoStartPomodoro" := Flag(true), "autoStartBreaks" := Flag(true)] by {
      assert ps[..6] == ps[..5] + [ps[5]];
      CollectSnoc(ps[..5], ps[5]);
    }
    assert Collect(ps[..7]) == map["pomodoro" := Number(25), "shortBreak" := Number(5), "longBreak" := Number(15), "autoSwitchSegment" := Flag(true), "autoStartPomodoro" := Flag(true), "autoStartBreaks" := Flag(true), "cyclesBeforeLongBreak" := Number(4)] by {
      assert ps[..7] == ps[..6] + [ps[6]];
      CollectSnoc(ps[..6], ps[6]);
    }
  }

  /** The table the catalogue yields. */
  lemma CatalogueDefaults()
    ensures Collect(Flatten(Catalogue)) == map["pomodoro" := Number(25),
      "shortBreak" := Number(5),
      "longBreak" := Number(15),
      "autoSwitchSegment" := Flag(true),
      "autoStartPomodoro" := Flag(true),
      "autoStartBreaks" := Flag(true),
      "cyclesBeforeLongBreak" := Number(4),
      "pomodoroSoundEffect" := Text("Caramelldansen"),
      "breakSoundEffect" := Text("To Be Continued"),
      "audioVolume" := Number(50)]
  {
    var ps := Flatten(Catalogue);
    FlattenCatalogue();
    CatalogueDefaultsOfPomodoro();
    assert Collect(ps[..8]) == map["pomodoro" := Number(25), "shortBreak" := Number(5), "longBreak" := Number(15), "autoSwitchSegment" := Flag(true), "autoStartPomodoro" := Flag(true), "autoStartBreaks" := Flag(true), "cyclesBeforeLongBreak" := Number(4), "pomodoroSoundEffect" := Text("Caramelldansen")] by {
      assert ps[..8] == ps[..7] + [ps[7]];
      CollectSnoc(ps[..7], ps[7]);
    }
    assert Collect(ps[..9]) == map["pomodoro" := Number(25), "shortBreak" := Number(5), "longBreak" := Number(15), "autoSwitchSegment" := Flag(true), "autoStartPomodoro" := Flag(true), "autoStartBreaks" := Flag(true), "cyclesBeforeLongBreak" := Number(4), "pomodoroSoundEffect" := Text("Caramelldansen"), "breakSoundEffect" := Text("To Be Continued")] by {
      assert ps[..9] == ps[..8] + [ps[8]];
      CollectSnoc(ps[..8], ps[8]);
    }
    assert Collect(ps[..10]) == map["pomodoro" := Number(25), "shortBreak" := Number(5), "longBreak" := Number(15), "autoSwitchSegment" := Flag(true), "autoStartPomodoro" := Flag(true), "autoStartBreaks" := Flag(true), "cyclesBeforeLongBreak" := Number(4), "pomodoroSoundEffect" := Text("Caramelldansen"), "breakSoundEffect" := Text("To Be Continued"), "audioVolume" := Number(50)] by {
      assert ps[..10] == ps[..9] + [ps[9]];
      CollectSnoc(ps[..9], ps[9]);
    }
    assert ps[..10] == ps;
  }

  // ---------------------------------------------------------------------
  // Sound source resolution in playSoundEffect
  // ---------------------------------------------------------------------

  /** The key an optional name is looked up under: an absent name is
      converted to the text "undefined". */
  function LookupKey(name: Option<string>): (key: string)
  {
    if name.Some? then name.value else "undefined"
  }

  /** The source to play: the uri when it is non-empty, otherwise the entry
      of the named sound; None (stop playback) when that is missing or empty. */
  function ResolveSource(name: Option<string>, uri: Option<string>, effects: map<string, string>): (src: Option<string>)
    ensures src.Some? ==> src.value != ""
    ensures src.Some? ==> src == uri || src.value in effects.Values
    ensures uri.Some? && uri.value != "" ==> src == uri
  {
    if uri.Some? && uri.value != "" then uri
    else
      var key := LookupKey(name);
      if key in effects && effects[key] != "" then Some(effects[key]) else None
  }

  /** Without a uri, a sound plays exactly when its name has a non-empty
      entry, and it plays that entry. */
  lemma ResolveByName(name: string, effects: map<string, string>)
    ensures ResolveSource(Some(name), None, effects).Some? <==> name in effects && effects[name] != ""
    ensures ResolveSource(Some(name), Some(""), effects) == ResolveSource(Some(name), None, effects)
    ensures name in effects && effects[name] != "" ==> ResolveSource(Some(name), None, effects) == Some(effects[name])
  {
  }

  /** "Bez skaņas" and unknown names stop playback; every other catalogued
      sound, and so both sound defaults, resolves to its own source. */
  lemma CatalogueResolution()
    ensures ResolveSource(Some("Bez skaņas"), None, SoundEffects) == None
    ensures ResolveSource(None, None, SoundEffects) == None
    ensures forall name | name in SoundEffects && name != "Bez skaņas" ::
      ResolveSource(Some(name), None, SoundEffects) == Some(SoundEffects[name])
    ensures ResolveSource(Some("Caramelldansen"), None, SoundEffects).Some?
    ensures ResolveSource(Some("To Be Continued"), None, SoundEffects).Some?
  {
  }
}
