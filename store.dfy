/**
 * The member file as the application sees it: `None` when the file does not
 * exist, otherwise its whole text. `names`, `add_member` and `store` are
 * functions of that value here; the class in app.dfy applies them to its
 * `file` field.
 */
module Store {
  import opened Wrappers
  import opened Lines

  /** The text of the file, empty when it does not exist (where append mode starts). */
  function Content(file: Option<string>): string
  {
    file.GetOr([])
  }

  /**
   * `names`: no names without a file, otherwise the text split at newlines
   * with the empty fields at its end dropped. The result is always a
   * well-formed list.
   */
  function Load(file: Option<string>): (r: seq<string>)
    ensures WellFormed(r)
    ensures file.None? ==> r == []
  {
    if file.None? then []
    else
      SplitSpec(file.value);
      Split(file.value)
  }

  /** The names join back to the text of the file without its trailing newlines. */
  lemma LoadJoin(file: Option<string>)
    ensures Join(Load(file)) == StripTrailingNewlines(Content(file))
  {
    if file.Some? {
      SplitSpec(file.value);
    }
  }

  /** The file after `add_member(name)`: the name is appended with no delimiter, creating the file if needed. */
  function Appended(file: Option<string>, name: string): (r: Option<string>)
    ensures r.Some? && |r.value| == |Content(file)| + |name|
    ensures r.value[..|Content(file)|] == Content(file) && r.value[|Content(file)|..] == name
  {
    Some(Content(file) + name)
  }

  /** The file after `store(lines)`: truncated, then the lines joined with newlines. */
  function Stored(ls: seq<string>): (r: Option<string>)
    ensures r.Some?
    ensures ls == [] ==> r.value == []
    ensures ls != [] && AllLines(ls) ==> Fields(r.value) == ls
  {
    if ls != [] && AllLines(ls) then FieldsJoin(ls); Some(Join(ls)) else Some(Join(ls))
  }

  /** Reading back stored lines loses only the empty lines at the end. */
  lemma LoadStored(ls: seq<string>)
    requires AllLines(ls)
    ensures Load(Stored(ls)) == DropTrailingEmpty(ls)
  {
    SplitJoin(ls);
  }

  /** Round trip: `names` after `store(lines)` is `lines`, for lines without newlines whose last is non-empty. */
  lemma LoadStoredRoundTrip(ls: seq<string>)
    requires WellFormed(ls)
    ensures Load(Stored(ls)) == ls
  {
    SplitJoinRoundTrip(ls);
  }

  /** Storing what was loaded rewrites the file byte for byte exactly when it does not end in a newline. */
  lemma StoreLoadIdentity(text: string)
    ensures Stored(Load(Some(text))) == Some(text) <==> (text == [] || text[|text| - 1] != '\n')
  {
    JoinSplitIdentity(text);
  }

  /** A file holding a stored list followed by one newline reads back as that list. */
  lemma LoadTrailingNewline(ls: seq<string>)
    requires WellFormed(ls)
    ensures Load(Some(Join(ls) + "\n")) == ls
  {
    if ls == [] {
      assert Fields("\n") == [[], []] by {
        assert "\n"[1..] == [];
      }
      return;
    }
    var ext := ls + [[]];
    assert AllLines(ext);
    JoinSnoc(ls, []);
    assert Join(ls) + "\n" + [] == Join(ls) + "\n";
    assert ext[..|ext| - 1] == ls;
    assert DropTrailingEmpty(ext) == ls;
    LoadStored(ext);
  }

  /** After one load-and-store, further loads and stores leave the file as it is. */
  lemma StoreLoadIdempotent(file: Option<string>)
    ensures Stored(Load(Stored(Load(file)))) == Stored(Load(file))
  {
    LoadStoredRoundTrip(Load(file));
  }

  /**
   * Appending to a file that is empty, or that ends in exactly one newline
   * after its names, adds the name as a new last entry.
   */
  lemma AppendAfterNewline(file: Option<string>, name: string)
    requires IsLine(name) && name != []
    requires Content(file) == [] || (Load(file) != [] && Content(file) == Join(Load(file)) + "\n")
    ensures Load(Appended(file, name)) == Load(file) + [name]
  {
    var ls := Load(file);
    LoadJoin(file);
    if Content(file) == [] {
      JoinEmpty(ls);
      assert Content(file) + name == Join([name]);
      LoadStoredRoundTrip([name]);
    } else {
      JoinSnoc(ls, name);
      LoadStoredRoundTrip(ls + [name]);
    }
  }

  /**
   * Appending to a file whose text does not end in a newline glues the name
   * onto the last stored name: the list keeps its length.
   */
  lemma AppendGlues(file: Option<string>, name: string)
    requires IsLine(name)
    requires Content(file) != [] && Content(file)[|Content(file)| - 1] != '\n'
    ensures var ls := Load(file);
      ls != [] && Load(Appended(file, name)) == ls[..|ls| - 1] + [ls[|ls| - 1] + name]
  {
    var ls := Load(file);
    LoadJoin(file);
    JoinEmpty(ls);
    var glued := ls[..|ls| - 1] + [ls[|ls| - 1] + name];
    JoinGlue(ls, name);
    assert Appended(file, name) == Stored(glued);
    GlueWellFormed(ls, name);
    LoadStoredRoundTrip(glued);
  }

  /** Appending to a file holding two names and no trailing newline extends the second name. */
  lemma AppendTwoNames(a: string, b: string, name: string)
    requires IsLine(a) && IsLine(b) && IsLine(name) && b != []
    ensures Load(Appended(Some(a + "\n" + b), name)) == [a, b + name]
  {
    var before: seq<string> := [a, b];
    assert Join(before) == a + "\n" + b;
    LoadStoredRoundTrip(before);
    AppendGlues(Some(a + "\n" + b), name);
  }

  /**
   * The create scenario of the application's request specs: with the file
   * holding "Anja\nMaren", adding "Monsta" leaves the text "Anja\nMarenMonsta",
   * which contains "Monsta", but whose names do not: the new name is glued
   * to "Maren".
   */
  lemma AppendScenario()
    ensures Load(Appended(Some("Anja" + "\n" + "Maren"), "Monsta")) == ["Anja", "Maren" + "Monsta"]
    ensures "Monsta" !in Load(Appended(Some("Anja" + "\n" + "Maren"), "Monsta"))
    ensures Appended(Some("Anja" + "\n" + "Maren"), "Monsta") == Some("Anja" + "\n" + "Maren" + "Monsta")
  {
    AppendTwoNames("Anja", "Maren", "Monsta");
  }
}
