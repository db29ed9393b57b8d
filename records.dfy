/**
 * The record shapes of the roster importer and the conversions into the
 * IServ import record: grade-prefix bucketing for SchILD exports, name
 * splitting for guest-student exports, and the dispatch over `Record`.
 */
module Records {
  import opened Text
  import opened Passphrase

  /** A row of a SchILD export. */
  datatype RecordSchild = RecordSchild(nachname: string, vorname: string, klasse: string, guid: string)

  /** A row of a guest-student export; `name` reads "<marker>Surname, Given (G)". */
  datatype RecordGastschueler = RecordGastschueler(name: string, klasse: string, schuelernr: string)

  /** The source row of one run: every row of a run has the same variant. */
  datatype Record = Schild(schild: RecordSchild) | Gastschueler(gast: RecordGastschueler)

  /** A row of the IServ import file. */
  datatype RecordIserv = RecordIserv(nachname: string, vorname: string, klasse: string, importId: string, password: string)

  /** `RecordIserv::new`: the four fields in order and a freshly drawn password. */
  function NewIserv(nachname: string, vorname: string, klasse: string, importId: string,
                    wordFile: string, draw: Draw): (r: RecordIserv)
    requires ValidDraw(WordList(wordFile), draw)
    ensures r.nachname == nachname && r.vorname == vorname && r.klasse == klasse && r.importId == importId
    ensures IsPassphrase(r.password, WordList(wordFile))
  {
    RecordIserv(nachname, vorname, klasse, importId, Generate(WordList(wordFile), draw))
  }

  // ---------------------------------------------------------------------
  // SchILD rows: grade-prefix bucketing

  /** The upper-school grades whose classes are merged into one per grade, checked in this order. */
  const GradePrefixes: seq<string> := ["11", "12", "13"]

  /**
   * The class of an upper-school pupil is cut down to its grade; every
   * other class label passes through.
   */
  function GradeBucket(klasse: string): (r: string)
    ensures StartsWith(klasse, r)
    ensures forall p | p in GradePrefixes :: StartsWith(klasse, p) ==> r == p
    ensures (forall p | p in GradePrefixes :: !StartsWith(klasse, p)) ==> r == klasse
  {
    if StartsWith(klasse, "11") then "11"
    else if StartsWith(klasse, "12") then "12"
    else if StartsWith(klasse, "13") then "13"
    else klasse
  }

  /** Examples: an upper-school class is cut down, "10a", "ABI" and a one-character label stay. */
  lemma GradeBucketExamples()
    ensures GradeBucket("11b") == "11" && GradeBucket("13") == "13"
    ensures GradeBucket("10a") == "10a" && GradeBucket("ABI") == "ABI" && GradeBucket("1") == "1"
  {
  }

  /** Bucketing a bucketed class changes nothing. */
  lemma GradeBucketIdempotent(klasse: string)
    ensures GradeBucket(GradeBucket(klasse)) == GradeBucket(klasse)
  {
  }

  /** `From<RecordSchild> for RecordIserv`. */
  function FromSchild(rec: RecordSchild, wordFile: string, draw: Draw): (r: RecordIserv)
    requires ValidDraw(WordList(wordFile), draw)
    ensures r.nachname == rec.nachname && r.vorname == rec.vorname
    ensures r.klasse == GradeBucket(rec.klasse)
    ensures r.importId == rec.guid
    ensures IsPassphrase(r.password, WordList(wordFile))
  {
    NewIserv(rec.nachname, rec.vorname, GradeBucket(rec.klasse), rec.guid, wordFile, draw)
  }

  // ---------------------------------------------------------------------
  // Guest-student rows: name splitting

  const NameSeparator: string := ", "
  const GuestMarker: string := " (G)"

  /** The character is encoded in UTF-8 as a single byte. */
  predicate IsSingleByte(c: char) {
    c as int < 0x80
  }

  /**
   * The names the conversion accepts: there is a separator, the surname
   * part before it is not empty, and its first (marker) character is one
   * byte long. On any other name the indexing in the conversion panics.
   */
  predicate ConvertibleName(name: string) {
    Contains(name, NameSeparator) && !StartsWith(name, NameSeparator) && |name| > 0 && IsSingleByte(name[0])
  }

  /** `ConvertibleName` is exactly "part 1 exists, part 0 is non-empty and starts with a one-byte character". */
  lemma ConvertibleNameIff(name: string)
    ensures var parts := Split(name, NameSeparator);
            ConvertibleName(name) <==> |parts| >= 2 && |parts[0]| >= 1 && IsSingleByte(parts[0][0])
  {
    var parts := Split(name, NameSeparator);
    match IndexOf(name, NameSeparator)
    case None =>
      assert parts == [name];
    case Some(i) =>
      assert parts[0] == name[..i];
      assert StartsWith(name, NameSeparator) <==> OccursAt(name, NameSeparator, 0);
  }

  /**
   * The text between the first separator and the next one (or the end of
   * the name when there is no second separator).
   */
  function GivenField(name: string): (given: string)
    requires Contains(name, NameSeparator)
  {
    var i := IndexOf(name, NameSeparator).value;
    var after := name[i + |NameSeparator|..];
    match IndexOf(after, NameSeparator)
    case None => after
    case Some(j) => after[..j]
  }

  /** `From<RecordGastschueler> for RecordIserv`. */
  function FromGastschueler(rec: RecordGastschueler, wordFile: string, draw: Draw): (r: RecordIserv)
    requires ConvertibleName(rec.name)
    requires ValidDraw(WordList(wordFile), draw)
    ensures var i := IndexOf(rec.name, NameSeparator).value;
            1 <= i && r.nachname == rec.name[1..i]
    ensures r.vorname == RemoveAll(GivenField(rec.name), GuestMarker)
    ensures r.klasse == rec.klasse
    ensures r.importId == rec.schuelernr
    ensures IsPassphrase(r.password, WordList(wordFile))
  {
    var name := Split(rec.name, NameSeparator);
    ConvertibleNameIff(rec.name);
    assert name[1] == GivenField(rec.name) by {
      var i := IndexOf(rec.name, NameSeparator).value;
      var after := rec.name[i + |NameSeparator|..];
      assert name == [rec.name[..i]] + Split(after, NameSeparator);
    }
    var nachname := name[0][1..];
    var vorname := RemoveAll(name[1], GuestMarker);
    NewIserv(nachname, vorname, rec.klasse, rec.schuelernr, wordFile, draw)
  }

  lemma SeparatorsUnbordered()
    ensures Unbordered(NameSeparator) && Unbordered(GuestMarker)
  {
    UnborderedByFirst(NameSeparator);
    UnborderedByFirst(GuestMarker);
  }

  /**
   * For a name "a, b" or "a, b, ...": the surname is `a` without its first
   * character, the given name is `b` with every guest marker deleted, and
   * whatever follows a second separator never reaches the record.
   */
  lemma {:induction false} GastschuelerNameParts(a: string, b: string, rest: string, wordFile: string, draw: Draw)
    requires !Contains(a, NameSeparator) && !Contains(b, NameSeparator)
    requires |a| > 0 && IsSingleByte(a[0])
    requires rest == "" || StartsWith(rest, NameSeparator)
    requires ValidDraw(WordList(wordFile), draw)
    ensures ConvertibleName(a + NameSeparator + b + rest)
    ensures var r := FromGastschueler(RecordGastschueler(a + NameSeparator + b + rest, "", ""), wordFile, draw);
            r.nachname == a[1..] && r.vorname == RemoveAll(b, GuestMarker)
  {
    var name := a + NameSeparator + b + rest;
    SeparatorsUnbordered();
    assert name == a + NameSeparator + (b + rest);
    SplitAfterFirst(a, NameSeparator, b + rest);
    if rest == "" {
      assert b + rest == b;
      SplitWithout(b, NameSeparator);
    } else {
      var t := rest[|NameSeparator|..];
      assert rest == NameSeparator + t;
      assert b + rest == b + NameSeparator + t;
      SplitAfterFirst(b, NameSeparator, t);
    }
    var parts := Split(name, NameSeparator);
    assert parts[0] == a && parts[1] == b;
    ConvertibleNameIff(name);
  }

  /**
   * A guest student written "<marker>Surname, Given (G)" gets exactly
   * `Surname` and `Given`.
   */
  lemma {:induction false} GuestStudentName(marker: char, surname: string, given: string, wordFile: string, draw: Draw)
    requires IsSingleByte(marker)
    requires !Contains([marker] + surname, NameSeparator)
    requires !Contains(given + GuestMarker, NameSeparator) && !Contains(given, GuestMarker)
    requires ValidDraw(WordList(wordFile), draw)
    ensures ConvertibleName([marker] + surname + NameSeparator + given + GuestMarker)
    ensures var r := FromGastschueler(RecordGastschueler([marker] + surname + NameSeparator + given + GuestMarker, "", ""), wordFile, draw);
            r.nachname == surname && r.vorname == given
  {
    var a, b := [marker] + surname, given + GuestMarker;
    assert a + NameSeparator + b + "" == [marker] + surname + NameSeparator + given + GuestMarker;
    GastschuelerNameParts(a, b, "", wordFile, draw);
    assert a[1..] == surname;
    SeparatorsUnbordered();
    RemoveTrailing(given, GuestMarker);
  }

  /** The worked example: "#Müller, Anna (G)" becomes surname "Müller" and given name "Anna". */
  lemma MuellerExample(wordFile: string, draw: Draw)
    requires ValidDraw(WordList(wordFile), draw)
    ensures ConvertibleName("#Müller, Anna (G)")
    ensures var r := FromGastschueler(RecordGastschueler("#Müller, Anna (G)", "10a", "4711"), wordFile, draw);
            r.nachname == "Müller" && r.vorname == "Anna" && r.klasse == "10a" && r.importId == "4711"
  {
    assert ['#'] + "Müller" == "#Müller" && "Anna" + GuestMarker == "Anna (G)";
    FirstCharAbsent("#Müller", NameSeparator);
    FirstCharAbsent("Anna (G)", NameSeparator);
    FirstCharAbsent("Anna", GuestMarker);
    assert "#Müller, Anna (G)" == ['#'] + "Müller" + NameSeparator + "Anna" + GuestMarker;
    GuestStudentName('#', "Müller", "Anna", wordFile, draw);
  }

  /** Without a leading marker the first letter of the surname is lost: "Müller, Anna (G)" gives "üller". */
  lemma UnmarkedSurnameLosesFirstLetter(wordFile: string, draw: Draw)
    requires ValidDraw(WordList(wordFile), draw)
    ensures ConvertibleName("Müller, Anna (G)")
    ensures var r := FromGastschueler(RecordGastschueler("Müller, Anna (G)", "10a", "4711"), wordFile, draw);
            r.nachname == "üller" && r.vorname == "Anna"
  {
    assert ['M'] + "üller" == "Müller" && "Anna" + GuestMarker == "Anna (G)";
    FirstCharAbsent("Müller", NameSeparator);
    FirstCharAbsent("Anna (G)", NameSeparator);
    FirstCharAbsent("Anna", GuestMarker);
    assert "Müller, Anna (G)" == ['M'] + "üller" + NameSeparator + "Anna" + GuestMarker;
    GuestStudentName('M', "üller", "Anna", wordFile, draw);
  }

  /** `From<Record> for RecordIserv`: each variant goes to its own conversion. */
  predicate Convertible(rec: Record) {
    rec.Gastschueler? ==> ConvertibleName(rec.gast.name)
  }

  function FromRecord(rec: Record, wordFile: string, draw: Draw): (r: RecordIserv)
    requires Convertible(rec)
    requires ValidDraw(WordList(wordFile), draw)
    ensures rec.Schild? ==> r == FromSchild(rec.schild, wordFile, draw)
    ensures rec.Gastschueler? ==> r == FromGastschueler(rec.gast, wordFile, draw)
  {
    match rec
    case Schild(s) => FromSchild(s, wordFile, draw)
    case Gastschueler(g) => FromGastschueler(g, wordFile, draw)
  }
}
