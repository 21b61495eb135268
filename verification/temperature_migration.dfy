/**
 * Revision 364ef5b2c019: every `.json` file of the recipes directory that has
 * a "temperature" key gets that value rewritten as the string of the value
 * rounded half-to-even to two decimal places; downgrade turns such a string
 * back into a number.  Every `.json` file is read and written back, with or
 * without the key; other files are not touched.
 */
module TemperatureMigration {
  import opened Wrappers
  import opened Decimals
  import opened Documents

  const Revision: string := "364ef5b2c019"
  const DownRevision: Option<string> := Some("67e944f651e4")

  const TemperatureKey: string := "temperature"

  // ---------------------------------------------------------------------
  // One value

  /** `Decimal(str(v))`: the numeral the text of a JSON value spells, if any.
      `str` of true, false, null, a list or an object is never a numeral. */
  function DecimalOf(v: Json): Option<Decimal> {
    match v
    case JNumber(n) => Some(n)
    case JString(s) => ParseDecimal(s)
    case _ => None
  }

  /** `str(round(Decimal(str(v)), 2))`: the new temperature, or the
      InvalidOperation that `Decimal` raises on text that is not a numeral. */
  function Normalize(v: Json): (r: Result<Json, Error>)
    ensures r.Ok? <==> DecimalOf(v).Some?
    ensures r.Err? ==> r.error == InvalidDecimal
    ensures r.Ok? ==> r.value.JString? && FixedTwoPlaces(r.value.s)
    ensures r.Ok? ==> ParseDecimal(r.value.s) == Some(Round2(DecimalOf(v).value))
  {
    match DecimalOf(v)
    case None => Err(InvalidDecimal)
    case Some(d) =>
      ParseRender(Round2(d));
      Ok(JString(Render(Round2(d))))
  }

  /** `float(v)`: a string is read as the number it spells, a number stays,
      a boolean becomes 1 or 0; None, a list or a dict raise TypeError. */
  function Restore(v: Json): (r: Result<Json, Error>)
    ensures r.Ok? ==> r.value.JNumber?
    ensures v.JNumber? ==> r == Ok(v)
    ensures v.JNumber? || v.JBool? ==> r.Ok?
    // Every text the upgrade writes converts back.
    ensures v.JString? && FixedTwoPlaces(v.s) ==> r.Ok?
  {
    match v
    case JString(s) =>
      FixedTwoPlacesParses(s);
      (match ParseDecimal(s)
       case Some(d) => Ok(JNumber(d))
       case None => Err(InvalidFloat))
    case JNumber(_) => Ok(v)
    case JBool(b) => Ok(JNumber(Decimal(false, if b then 1 else 0, 0)))
    case _ => Err(NotConvertible)
  }

  // ---------------------------------------------------------------------
  // One document

  datatype Step = Up | Down

  /** The in-place update of the loaded dict: only "temperature" may change. */
  function ConvertDocument(step: Step, doc: Document): (r: Result<Document, Error>)
    ensures TemperatureKey !in doc ==> r == Ok(doc)
    ensures r.Ok? ==> r.value.Keys == doc.Keys
    ensures r.Ok? ==> forall k | k in doc && k != TemperatureKey :: r.value[k] == doc[k]
    ensures TemperatureKey in doc && step == Up ==>
              (r.Ok? <==> Normalize(doc[TemperatureKey]).Ok?)
              && (r.Ok? ==> Normalize(doc[TemperatureKey]) == Ok(r.value[TemperatureKey]))
    ensures TemperatureKey in doc && step == Down ==>
              (r.Ok? <==> Restore(doc[TemperatureKey]).Ok?)
              && (r.Ok? ==> Restore(doc[TemperatureKey]) == Ok(r.value[TemperatureKey]))
  {
    if TemperatureKey !in doc then Ok(doc)
    else
      var converted := if step == Up then Normalize(doc[TemperatureKey]) else Restore(doc[TemperatureKey]);
      match converted
      case Err(e) => Err(e)
      case Ok(v) => Ok(doc[TemperatureKey := v])
  }

  /** Python's `key in v` on the value `json.load` returned: a key of an
      object, an element of a list, a substring of a string; a number, a
      boolean or None is not iterable. */
  function Contains(v: Json, key: string): (r: Result<bool, Error>)
    ensures r.Err? <==> !(v.JObject? || v.JArray? || v.JString?)
    ensures r.Err? ==> r.error == NotIterable
    ensures v.JString? ==> (r == Ok(true) <==> exists i :: OccursAt(key, v.s, i))
  {
    match v
    case JObject(members) => Ok(key in members)
    case JArray(items) => Ok(JString(key) in items)
    case JString(s) => OccursAtSomePosition(key, s); Ok(Occurs(key, s))
    case _ => Err(NotIterable)
  }

  /** The file holds an object with a temperature: the only files that change. */
  predicate HasTemperature(c: FileContent) {
    c.JsonFile? && c.value.JObject? && TemperatureKey in c.value.members
  }

  /** Load one `.json` file, convert the temperature if `'temperature' in
      data`, and dump the result back. */
  function ConvertFile(step: Step, c: FileContent): (r: Result<FileContent, Error>)
    ensures r.Ok? ==> c.JsonFile? && r.value.JsonFile?
    ensures r.Ok? && !HasTemperature(c) ==> r.value == c
    ensures HasTemperature(c) ==> (r.Ok? <==> ConvertDocument(step, c.value.members).Ok?)
    ensures r.Ok? && HasTemperature(c) ==> r.value.value == JObject(ConvertDocument(step, c.value.members).value)
  {
    match c
    case Unreadable => Err(UnreadableDocument)
    case JsonFile(v) =>
      match Contains(v, TemperatureKey)
      case Err(e) => Err(e)
      case Ok(false) => Ok(c)
      case Ok(true) =>
        if v.JObject? then
          match ConvertDocument(step, v.members)
          case Ok(d) => Ok(JsonFile(JObject(d)))
          case Err(e) => Err(e)
        else Err(NonIntegerIndex)
  }

  // ---------------------------------------------------------------------
  // The whole directory

  /** Every `.json` file of the directory converts without raising. */
  ghost predicate Convertible(step: Step, dir: map<string, FileContent>) {
    forall f | f in dir && HasJsonSuffix(f) :: ConvertFile(step, dir[f]).Ok?
  }

  /** The directory once every `.json` file is converted. */
  ghost function ConvertedAll(step: Step, dir: map<string, FileContent>): (r: map<string, FileContent>)
    requires Convertible(step, dir)
    ensures r.Keys == dir.Keys
    ensures forall f | f in dir && !HasJsonSuffix(f) :: r[f] == dir[f]
    ensures forall f | f in dir && HasJsonSuffix(f) :: ConvertFile(step, dir[f]) == Ok(r[f])
  {
    map f | f in dir :: if HasJsonSuffix(f) then ConvertFile(step, dir[f]).value else dir[f]
  }

  datatype Outcome = Completed | Raised(file: string, error: Error)

  /** What the loop leaves behind, whatever order it took: only `.json` files
      change, each file is as it was or converted; it completes exactly when
      every `.json` file converts, and then the directory is `ConvertedAll`;
      when it raises, the file it names is a `.json` file that failed and
      that file is unchanged. */
  ghost predicate Rewrote(step: Step, dir: map<string, FileContent>,
                          out: map<string, FileContent>, outcome: Outcome) {
    && out.Keys == dir.Keys
    && (forall f | f in dir && !HasJsonSuffix(f) :: out[f] == dir[f])
    && (forall f | f in dir :: out[f] == dir[f] || ConvertFile(step, dir[f]) == Ok(out[f]))
    && (outcome.Completed? <==> Convertible(step, dir))
    && (outcome.Completed? ==> out == ConvertedAll(step, dir))
    && (outcome.Raised? ==>
          && outcome.file in dir && HasJsonSuffix(outcome.file)
          && ConvertFile(step, dir[outcome.file]) == Err(outcome.error)
          && out[outcome.file] == dir[outcome.file])
  }

  /** Which files the loop reached, given `visited`, the names in the order it
      took them from the listing: they are distinct names of the directory;
      files it did not reach are as they were; every `.json` file it reached
      is converted, except the one it raised on, which is the last it
      reached; when it completes it has reached every file. */
  ghost predicate RewroteInOrder(step: Step, dir: map<string, FileContent>, visited: seq<string>,
                                 out: map<string, FileContent>, outcome: Outcome) {
    && (forall i | 0 <= i < |visited| :: visited[i] in dir && visited[i] in out)
    && (forall i, j | 0 <= i < j < |visited| :: visited[i] != visited[j])
    && (forall f | f in dir && f !in visited :: f in out && out[f] == dir[f])
    && (forall f | f in visited && HasJsonSuffix(f) && !(outcome.Raised? && f == outcome.file) ::
          ConvertFile(step, dir[f]) == Ok(out[f]))
    && (outcome.Completed? ==> forall f | f in dir :: f in visited)
    && (outcome.Raised? ==> |visited| > 0 && visited[|visited| - 1] == outcome.file)
  }

  /** The loop's state: `visited` lists, without repeats, the names taken
      from the listing so far, which are those no longer `pending`; every
      `.json` file among them is converted and every other file is as it
      was. */
  ghost predicate Progress(step: Step, dir: map<string, FileContent>, pending: set<string>,
                           visited: seq<string>, out: map<string, FileContent>) {
    && pending <= dir.Keys && out.Keys == dir.Keys
    && (forall i | 0 <= i < |visited| :: visited[i] in dir && visited[i] !in pending)
    && (forall f | f in dir && f !in pending :: f in visited)
    && (forall i, j | 0 <= i < j < |visited| :: visited[i] != visited[j])
    && (forall f | f in dir && f !in visited :: out[f] == dir[f])
    && (forall f | f in dir && !HasJsonSuffix(f) :: out[f] == dir[f])
    && (forall f | f in visited && HasJsonSuffix(f) :: ConvertFile(step, dir[f]) == Ok(out[f]))
  }

  /** Once nothing is pending, the loop has done the whole directory. */
  lemma ProgressCompletes(step: Step, dir: map<string, FileContent>, visited: seq<string>,
                          out: map<string, FileContent>)
    requires Progress(step, dir, {}, visited, out)
    ensures Rewrote(step, dir, out, Completed)
    ensures RewroteInOrder(step, dir, visited, out, Completed)
  {
    assert Convertible(step, dir);
    assert out == ConvertedAll(step, dir);
  }

  /** A pending `.json` file that fails stops the loop with the rest as it is. */
  lemma ProgressRaises(step: Step, dir: map<string, FileContent>, pending: set<string>,
                       visited: seq<string>, out: map<string, FileContent>, f: string)
    requires Progress(step, dir, pending, visited, out)
    requires f in pending && HasJsonSuffix(f) && ConvertFile(step, dir[f]).Err?
    ensures Rewrote(step, dir, out, Raised(f, ConvertFile(step, dir[f]).error))
    ensures RewroteInOrder(step, dir, visited + [f], out, Raised(f, ConvertFile(step, dir[f]).error))
  {
    var all := visited + [f];
    assert forall i | 0 <= i < |visited| :: all[i] == visited[i];
    assert !Convertible(step, dir);
  }

  /** The loop shared by upgrade and downgrade: the directory is listed in an
      unspecified order, and every `.json` file is loaded, converted and
      written back before the next is read; nothing written is undone when a
      later file raises. */
  method RewriteJsonFiles(step: Step, dir: map<string, FileContent>)
    returns (out: map<string, FileContent>, outcome: Outcome, ghost visited: seq<string>)
    ensures Rewrote(step, dir, out, outcome)
    ensures RewroteInOrder(step, dir, visited, out, outcome)
  {
    out := dir;
    visited := [];
    var pending := dir.Keys;
    while pending != {}
      invariant Progress(step, dir, pending, visited, out)
      decreases pending
    {
      var f :| f in pending;
      if HasJsonSuffix(f) {
        match ConvertFile(step, dir[f])
        case Err(e) =>
          ProgressRaises(step, dir, pending, visited, out, f);
          visited := visited + [f];
          outcome := Raised(f, e);
          return;
        case Ok(c) =>
          out := out[f := c];
      }
      pending := pending - {f};
      visited := visited + [f];
    }
    ProgressCompletes(step, dir, visited, out);
    outcome := Completed;
  }

  /** `upgrade()`. */
  method Upgrade(dir: map<string, FileContent>)
    returns (out: map<string, FileContent>, outcome: Outcome, ghost visited: seq<string>)
    ensures Rewrote(Up, dir, out, outcome)
    ensures RewroteInOrder(Up, dir, visited, out, outcome)
  {
    out, outcome, visited := RewriteJsonFiles(Up, dir);
  }

  /** `downgrade()`. */
  method Downgrade(dir: map<string, FileContent>)
    returns (out: map<string, FileContent>, outcome: Outcome, ghost visited: seq<string>)
    ensures Rewrote(Down, dir, out, outcome)
    ensures RewroteInOrder(Down, dir, visited, out, outcome)
  {
    out, outcome, visited := RewriteJsonFiles(Down, dir);
  }

  // ---------------------------------------------------------------------
  // Properties

  /** Normalising an already normalised temperature gives it back. */
  lemma NormalizeIdempotent(v: Json)
    requires Normalize(v).Ok?
    ensures Normalize(Normalize(v).value) == Normalize(v)
  {
    var d := DecimalOf(v).value;
    var w := Normalize(v).value;
    assert DecimalOf(w) == Some(Round2(d));
    RoundFixesTwoPlaces(Round2(d));
  }

  lemma UpgradeDocumentIdempotent(doc: Document)
    requires ConvertDocument(Up, doc).Ok?
    ensures ConvertDocument(Up, ConvertDocument(Up, doc).value) == ConvertDocument(Up, doc)
  {
    var once := ConvertDocument(Up, doc).value;
    if TemperatureKey in doc {
      NormalizeIdempotent(doc[TemperatureKey]);
      assert Normalize(once[TemperatureKey]) == Ok(once[TemperatureKey]);
      assert once[TemperatureKey := once[TemperatureKey]] == once;
    }
  }

  /** Running the upgrade over a directory it has already converted changes nothing. */
  lemma UpgradeIdempotent(dir: map<string, FileContent>)
    requires Convertible(Up, dir)
    ensures Convertible(Up, ConvertedAll(Up, dir))
    ensures ConvertedAll(Up, ConvertedAll(Up, dir)) == ConvertedAll(Up, dir)
  {
    var once := ConvertedAll(Up, dir);
    forall f | f in once && HasJsonSuffix(f)
      ensures ConvertFile(Up, once[f]) == Ok(once[f])
    {
      assert ConvertFile(Up, dir[f]) == Ok(once[f]);
      if HasTemperature(dir[f]) {
        UpgradeDocumentIdempotent(dir[f].value.members);
      }
    }
  }

  /** Downgrade after upgrade gives the rounded number, not the original one. */
  lemma RestoreAfterNormalize(v: Json)
    requires Normalize(v).Ok?
    ensures Restore(Normalize(v).value) == Ok(JNumber(Round2(DecimalOf(v).value)))
  {
  }

  /** A document without a temperature survives the upgrade unchanged. */
  lemma DocumentWithoutTemperature(step: Step, doc: Document)
    requires TemperatureKey !in doc
    ensures ConvertFile(step, JsonFile(JObject(doc))) == Ok(JsonFile(JObject(doc)))
  {
  }

  /** A file whose top-level value is not an object: a list or a string
      without "temperature" is written back as it was; one with it raises
      when indexed by a string; a number, a boolean or null raises on `in`. */
  lemma NonObjectFiles(step: Step, v: Json)
    requires !v.JObject?
    ensures ConvertFile(step, JsonFile(v)).Ok? <==>
              (v.JArray? && JString(TemperatureKey) !in v.items) || (v.JString? && !Occurs(TemperatureKey, v.s))
    ensures ConvertFile(step, JsonFile(v)).Ok? ==> ConvertFile(step, JsonFile(v)) == Ok(JsonFile(v))
    ensures v.JNumber? || v.JBool? || v.JNull? ==> ConvertFile(step, JsonFile(v)) == Err(NotIterable)
  {
  }

  /** Downgrade reads back exactly the numeral the upgrade wrote. */
  lemma RestoreReadsRender(d: Decimal)
    requires d.exp == -2
    ensures Restore(JString(Render(d))) == Ok(JNumber(d))
  {
    ParseRender(d);
  }

  /** 92.456 rounds to "92.46". */
  lemma ExampleRoundsUp()
    ensures Normalize(JNumber(Decimal(false, 92456, -3))) == Ok(JString("92.46"))
  {
    assert Pow10(1) == 10;
    assert Round2(Decimal(false, 92456, -3)) == Decimal(false, 9246, -2);
    assert NatToString(9) == "9";
    assert NatToString(92) == "92";
    assert Render(Decimal(false, 9246, -2)) == "92.46";
  }

  /** 93.5 keeps its value and gains a trailing zero: "93.50". */
  lemma ExamplePadsZero()
    ensures Normalize(JNumber(Decimal(false, 935, -1))) == Ok(JString("93.50"))
  {
    assert Pow10(1) == 10;
    assert Round2(Decimal(false, 935, -1)) == Decimal(false, 9350, -2);
    assert NatToString(9) == "9";
    assert NatToString(93) == "93";
    assert Render(Decimal(false, 9350, -2)) == "93.50";
  }

  /** Rounding a tie "0.xy5" to hundredths, by the parity of xy. */
  lemma RoundTie(k: nat, r: nat)
    requires k % 10 == 5 && r == if (k / 10) % 2 == 0 then k / 10 else k / 10 + 1
    ensures Round2(Decimal(false, k, -3)) == Decimal(false, r, -2)
  {
    assert Pow10(1) == 10;
  }

  /** A tie goes to the even neighbour below: 0.125 becomes "0.12". */
  lemma ExampleTieDown()
    ensures Normalize(JNumber(Decimal(false, 125, -3))) == Ok(JString("0.12"))
  {
    RoundTie(125, 12);
    assert Render(Decimal(false, 12, -2)) == "0.12";
  }

  /** A tie goes to the even neighbour above: 0.135 becomes "0.14". */
  lemma ExampleTieUp()
    ensures Normalize(JNumber(Decimal(false, 135, -3))) == Ok(JString("0.14"))
  {
    RoundTie(135, 14);
    assert Render(Decimal(false, 14, -2)) == "0.14";
  }

  /** A negative value that rounds to zero keeps its sign: -0.001 becomes "-0.00". */
  lemma ExampleSignedZero()
    ensures Normalize(JNumber(Decimal(true, 1, -3))) == Ok(JString("-0.00"))
  {
    assert Pow10(1) == 10;
    assert Round2(Decimal(true, 1, -3)) == Decimal(true, 0, -2);
    assert Render(Decimal(true, 0, -2)) == "-0.00";
  }

  /** Text without a single digit is not a numeral, so the upgrade raises on it. */
  lemma NonNumericRaises(s: string)
    requires forall i | 0 <= i < |s| :: !IsDigit(s[i])
    ensures Normalize(JString(s)) == Err(InvalidDecimal)
  {
    NoDigitNoNumeral(s);
  }

  /** When the loop raises, nothing is rolled back: every `.json` file it
      reached before the failing one stays converted on disk. */
  lemma RaisedKeepsEarlierFiles(step: Step, dir: map<string, FileContent>, visited: seq<string>,
                                out: map<string, FileContent>, outcome: Outcome)
    requires RewroteInOrder(step, dir, visited, out, outcome) && outcome.Raised?
    ensures forall i | 0 <= i < |visited| - 1 && HasJsonSuffix(visited[i]) ::
              ConvertFile(step, dir[visited[i]]) == Ok(out[visited[i]])
  {
    forall i | 0 <= i < |visited| - 1 && HasJsonSuffix(visited[i])
      ensures ConvertFile(step, dir[visited[i]]) == Ok(out[visited[i]])
    {
      assert visited[i] != visited[|visited| - 1];
      assert visited[i] in visited;
    }
  }

  /** The pair is not an inverse: 92.456 comes back as 92.46. */
  lemma NotAnInverse()
    ensures var v := JNumber(Decimal(false, 92456, -3));
            Normalize(v).Ok? && Restore(Normalize(v).value).Ok?
            && !SameValue(Restore(Normalize(v).value).value.n, v.n)
  {
    var v := JNumber(Decimal(false, 92456, -3));
    var back := Decimal(false, 9246, -2);
    assert Pow10(1) == 10;
    assert Round2(v.n) == back;
    RestoreAfterNormalize(v);
    assert Restore(Normalize(v).value) == Ok(JNumber(back));
    assert Scaled(back, -3) == 92460;
  }
}
