/**
 * The recipe documents kept as JSON files in the recipes directory, and the
 * exceptions the persistence code lets escape, named after Python's.
 */
module Documents {
  import opened Decimals

  /** A JSON value as `json.load` returns it.  A number is held as the decimal
      numeral `str(x)` prints for it. */
  datatype Json =
    | JNull
    | JBool(b: bool)
    | JNumber(n: Decimal)
    | JString(s: string)
    | JArray(items: seq<Json>)
    | JObject(members: map<string, Json>)

  /** A recipe document: the JSON object one file holds. */
  type Document = map<string, Json>

  /** What a file in the recipes directory holds, as `json.load` sees it:
      the top-level value it returns (an object for every file the store
      writes, but any JSON value can sit in the directory), or text it
      rejects. */
  datatype FileContent = JsonFile(value: Json) | Unreadable

  /** Python's `key in s` for strings: `key` occurs in `s` as a substring. */
  predicate Occurs(key: string, s: string)
    decreases |s|
  {
    |key| <= |s| && (s[..|key|] == key || Occurs(key, s[1..]))
  }

  /** `key` is found in `s` starting at position i. */
  ghost predicate OccursAt(key: string, s: string, i: int) {
    0 <= i <= |s| - |key| && s[i..i + |key|] == key
  }

  /** `Occurs` is substring search: the key is found at some position of `s`. */
  lemma {:induction false} OccursAtSomePosition(key: string, s: string)
    ensures Occurs(key, s) <==> exists i :: OccursAt(key, s, i)
    decreases |s|
  {
    if |key| <= |s| {
      if s[..|key|] == key {
        assert OccursAt(key, s, 0);
      } else {
        var tail := s[1..];
        OccursAtSomePosition(key, tail);
        if Occurs(key, tail) {
          var i :| OccursAt(key, tail, i);
          assert s[i + 1..i + 1 + |key|] == tail[i..i + |key|];
          assert OccursAt(key, s, i + 1);
        } else {
          forall i | 0 < i <= |s| - |key| ensures !OccursAt(key, s, i) {
            assert s[i..i + |key|] == tail[i - 1..i - 1 + |key|];
            assert !OccursAt(key, tail, i - 1);
          }
          assert !OccursAt(key, s, 0);
        }
      }
    }
  }

  /** `filename.endswith('.json')`. */
  predicate HasJsonSuffix(name: string) {
    |name| >= 5 && name[|name| - 5..] == ".json"
  }

  datatype Error =
    | KeyError(key: string)        // a required key of the payload is missing
    | WriteFailed                  // the document file could not be written
    | NotNullViolated(column: string)
    | UnbindableValue(column: string)  // sqlite3 cannot bind a list or dict
    | DatabaseFailed               // any other failure of the insert or commit
    | FileNotFound(path: string)
    | UnreadableDocument           // json.load rejects the text
    | NoUpdate                     // AttributeError: a top-level value that is not an object has no `update`
    | NotIterable                  // TypeError from `key in v` on a number, a boolean or None
    | NonIntegerIndex              // TypeError from indexing a list or a string with a string
    | InvalidDecimal               // decimal.InvalidOperation from Decimal(...)
    | InvalidFloat                 // ValueError from float(...)
    | NotConvertible               // TypeError from float(...) of None, a list or a dict
    | UnboundSession               // UnboundLocalError on the name `session`
}
