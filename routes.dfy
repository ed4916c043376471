/**
 * The request handling of the application as a state machine over the
 * member file and the session's flash message. Each mutating route yields
 * the next state and an outcome: a redirect (after which the flash is set),
 * a re-rendered form carrying the validator's messages, or an exception
 * that escapes the route.
 */
module Routes {
  import opened Wrappers
  import opened Lines
  import opened Roster
  import opened Store
  import opened Members
  import opened Validation

  /** What survives between requests: the member file and `session[:message]`. */
  datatype State = State(file: Option<string>, flash: Option<string>)

  datatype Outcome =
    | Redirect(location: string)                     // 302 to `location`
    | Rerender(name: string, messages: seq<string>)  // 200, the `new` form filled in with `name`
    | Page                                           // 200, a page of a GET route
    | ServerError                                    // an exception escapes the route

  datatype Step = Step(state: State, outcome: Outcome)

  datatype Request =
    | GET                                    // any of the GET routes: they only render
    | POST(name: Option<string>)             // POST /members, `params[:name]`
    | PUT(id: string, name: Option<string>)  // PUT /members/:id
    | DELETE(id: string)                     // DELETE /members/:id

  /** A served request: the flash the `before` filter handed to this response, and the route's step. */
  datatype Exchange = Exchange(notice: Option<string>, step: Step)

  const MembersPath: string := "/members"

  function MemberPath(id: string): string
  {
    MembersPath + "/" + id
  }

  function SavedMessage(name: string): string
  {
    "Successfully saved the new member: " + name + "."
  }

  function UpdatedMessage(name: string): string
  {
    "Successfully updated the member: " + name + "."
  }

  function RemovedMessage(id: string): string
  {
    "Successfully removed the member: " + id + "."
  }

  /** The `before` filter: `session.delete(:message)` hands the flash to this request and clears it. */
  function BeforeFilter(s: State): (r: (Option<string>, State))
    ensures r.0 == s.flash
    ensures r.1.flash == None && r.1.file == s.file
  {
    (s.flash, s.(flash := None))
  }

  /** POST /members. */
  function Create(s: State, param: Option<string>): (r: Step)
    ensures var n := ToS(param);
      && (r.outcome.Redirect? <==> n != [] && n !in Load(s.file))
      && (!r.outcome.Redirect? ==>
            r.state == s && r.outcome == Rerender(n, Messages(n, Load(s.file))))
      && (r.outcome.Redirect? ==>
            && r.state.file == Appended(s.file, n)
            && r.state.flash == Some(SavedMessage(n))
            && r.outcome.location == MemberPath(n))
  {
    var n := ToS(param);
    var messages := Messages(n, Load(s.file));
    if messages == [] then
      Step(State(Appended(s.file, n), Some(SavedMessage(n))), Redirect(MemberPath(n)))
    else
      Step(s, Rerender(n, messages))
  }

  /**
   * PUT /members/:id. An unknown id makes `find_member` return nil, and
   * assigning its name raises; a missing name parameter sets the name to
   * nil, and validating it raises. Otherwise the new name is validated
   * against the roster as loaded, which still holds the old name.
   */
  function Update(s: State, id: string, param: Option<string>): (r: Step)
    ensures id !in Load(s.file) || param.None? ==> r == Step(s, ServerError)
    ensures r.outcome.Redirect? <==>
      id in Load(s.file) && param.Some? && param.value != [] && param.value !in Load(s.file)
    ensures id in Load(s.file) && param.Some? && !r.outcome.Redirect? ==>
      r == Step(s, Rerender(param.value, Messages(param.value, Load(s.file))))
    ensures r.outcome.Redirect? ==>
      && r.state.file == Stored(ReplaceFirst(Load(s.file), id, param.value).value)
      && r.state.flash == Some(UpdatedMessage(param.value))
      && r.outcome.location == MemberPath(param.value)
  {
    var names := Load(s.file);
    if id !in names || param.None? then Step(s, ServerError)
    else
      var n := param.value;
      var messages := Messages(n, names);
      if messages == [] then
        Step(State(Stored(ReplaceFirst(names, id, n).value), Some(UpdatedMessage(n))), Redirect(MemberPath(n)))
      else
        Step(s, Rerender(n, messages))
  }

  /** DELETE /members/:id: no validation; every entry equal to `id` goes, and the file is rewritten. */
  function Delete(s: State, id: string): (r: Step)
    ensures r.state.file == Stored(Reject(Load(s.file), id))
    ensures r.state.flash == Some(RemovedMessage(id))
    ensures r.outcome == Redirect(MembersPath)
  {
    Step(State(Stored(Reject(Load(s.file), id)), Some(RemovedMessage(id))), Redirect(MembersPath))
  }

  /** One request: the `before` filter, then the route. */
  function Handle(s: State, req: Request): (r: Exchange)
    ensures r.notice == s.flash
    ensures req.GET? ==> r.step == Step(State(s.file, None), Page)
    ensures req.POST? ==> r.step == Create(s.(flash := None), req.name)
    ensures req.PUT? ==> r.step == Update(s.(flash := None), req.id, req.name)
    ensures req.DELETE? ==> r.step == Delete(s.(flash := None), req.id)
  {
    var (notice, t) := BeforeFilter(s);
    var step := match req
      case GET => Step(t, Page)
      case POST(n) => Create(t, n)
      case PUT(id, n) => Update(t, id, n)
      case DELETE(id) => Delete(t, id);
    Exchange(notice, step)
  }

  /** An empty or missing name is refused with the empty-name message, and nothing is stored. */
  lemma CreateEmptyRejected(s: State, param: Option<string>)
    requires param.None? || param == Some([])
    ensures Create(s, param) == Step(s, Rerender([], [EmptyNameMessage]))
  {
  }

  /** A name already on the roster is refused with the duplicate message, and nothing is stored. */
  lemma CreateDuplicateRejected(s: State, n: string)
    requires n != [] && n in Load(s.file)
    ensures Create(s, Some(n)) == Step(s, Rerender(n, [DuplicateMessage(n)]))
  {
  }

  /**
   * A valid name created in an absent or empty file, or in one ending in
   * one newline after its names, becomes the new last entry and can then be
   * found by its id.
   */
  lemma CreateAddsName(s: State, n: string)
    requires IsLine(n) && n != [] && n !in Load(s.file)
    requires Content(s.file) == [] || (Load(s.file) != [] && Content(s.file) == Join(Load(s.file)) + "\n")
    ensures Load(Create(s, Some(n)).state.file) == Load(s.file) + [n]
    ensures n in Load(Create(s, Some(n)).state.file)
    ensures Create(s, Some(n)).outcome == Redirect(MemberPath(n))
  {
    AppendAfterNewline(s.file, n);
  }

  /**
   * Where a create appends a new last entry, it keeps the roster free of
   * duplicates: a refused create changes nothing, and an accepted one adds
   * a name that was not there.
   */
  lemma CreateKeepsDistinct(s: State, n: string)
    requires Distinct(Load(s.file)) && IsLine(n)
    requires Content(s.file) == [] || (Load(s.file) != [] && Content(s.file) == Join(Load(s.file)) + "\n")
    ensures Distinct(Load(Create(s, Some(n)).state.file))
  {
    if n != [] && n !in Load(s.file) {
      CreateAddsName(s, n);
      SnocDistinct(Load(s.file), n);
    }
  }

  /**
   * The append glue lets an accepted create put a duplicate on the roster:
   * on a file holding `xy` and then `x` with no trailing newline, creating
   * `y` passes validation, and the file then reads `xy`, `xy`.
   */
  lemma CreateGluesDuplicate(x: string, y: string, flash: Option<string>)
    requires IsLine(x) && IsLine(y) && x != [] && y != [] && x != y
    ensures var s := State(Some(x + y + "\n" + x), flash);
      && Distinct(Load(s.file))
      && Create(s, Some(y)).outcome.Redirect?
      && Load(Create(s, Some(y)).state.file) == [x + y, x + y]
      && !Distinct(Load(Create(s, Some(y)).state.file))
  {
    assert |x + y| > |x| && |x + y| > |y|;
    assert IsLine(x + y);
    CreateOnTwoNames(x + y, x, y, flash);
    var names: seq<string> := [x + y, x];
    assert Join(names) == x + y + "\n" + x;
    LoadStoredRoundTrip(names);
  }

  /** The smallest instance: on "ab\na", creating "b" leaves the names "ab", "ab". */
  lemma CreateGluesDuplicateExample(flash: Option<string>)
    ensures var s := State(Some("a" + "b" + "\n" + "a"), flash);
      && Distinct(Load(s.file))
      && Create(s, Some("b")).outcome.Redirect?
      && Load(Create(s, Some("b")).state.file) == ["a" + "b", "a" + "b"]
      && !Distinct(Load(Create(s, Some("b")).state.file))
  {
    CreateGluesDuplicate("a", "b", flash);
  }

  /** A rename keeps the roster free of duplicates: a refused one changes nothing, an accepted one brings in an unused name. */
  lemma UpdateKeepsDistinct(s: State, a: string, b: string)
    requires Distinct(Load(s.file)) && a in Load(s.file) && IsLine(b)
    ensures Distinct(Load(Update(s, a, Some(b)).state.file))
  {
    if b != [] && b !in Load(s.file) {
      UpdateRenames(s, a, b);
      var old_names := Load(s.file);
      var ls := Load(Update(s, a, Some(b)).state.file);
      var k := IndexOf(old_names, a).value;
      forall i, j | 0 <= i < j < |ls| ensures ls[i] != ls[j] {
        if i == k {
          assert ls[j] == old_names[j];
        } else if j == k {
          assert ls[i] == old_names[i];
        } else {
          assert ls[i] == old_names[i] && ls[j] == old_names[j];
        }
      }
    }
  }

  /** A delete keeps the roster free of duplicates. */
  lemma DeleteKeepsDistinct(s: State, id: string)
    requires Distinct(Load(s.file))
    ensures Distinct(Load(Delete(s, id).state.file))
  {
    DeleteRemoves(s, id);
    var kept := Reject(Load(s.file), id);
    RejectDistinct(Load(s.file), id);
    PrefixDistinct(kept, |DropTrailingEmpty(kept)|);
  }

  /**
   * Renaming the first of two stored names, in a file that ends in a
   * newline, to an unused name: the redirect, the flash and the new roster.
   */
  lemma UpdateOnTwoNames(a: string, b: string, c: string, flash: Option<string>)
    requires IsLine(a) && IsLine(b) && IsLine(c) && b != [] && c != [] && c != a && c != b
    ensures var s := State(Some(Join([a, b]) + "\n"), flash);
      && Update(s, a, Some(c)) == Step(State(Stored([c, b]), Some(UpdatedMessage(c))), Redirect(MemberPath(c)))
      && Load(Stored([c, b])) == [c, b]
  {
    var names: seq<string> := [a, b];
    LoadTrailingNewline(names);
    assert IndexOf(names, a) == Some(0);
    assert ReplaceFirst(names, a, c).value == [c, b];
    LoadStoredRoundTrip([c, b]);
  }

  /** A rename to the member's own name is always refused: the duplicate check still sees the old name. */
  lemma UpdateSameNameRejected(s: State, id: string)
    requires id in Load(s.file)
    ensures Update(s, id, Some(id)).state == s
    ensures Update(s, id, Some(id)).outcome == Rerender(id, Messages(id, Load(s.file)))
    ensures Update(s, id, Some(id)).outcome.messages != []
  {
  }

  /** Renaming a known member to the empty name is refused with the empty-name message, and nothing is stored. */
  lemma UpdateEmptyRejected(s: State, id: string)
    requires id in Load(s.file)
    ensures Update(s, id, Some([])) == Step(s, Rerender([], [EmptyNameMessage]))
  {
  }

  /**
   * A rename of `a` to an unused non-empty line `b` overwrites the first
   * `a` with `b`: the roster keeps its length and its other entries, holds
   * `b`, and holds one `a` fewer.
   */
  lemma UpdateRenames(s: State, a: string, b: string)
    requires a in Load(s.file)
    requires IsLine(b) && b != [] && b !in Load(s.file)
    ensures var old_names := Load(s.file);
      var new_names := Load(Update(s, a, Some(b)).state.file);
      var k := IndexOf(old_names, a).value;
      && |new_names| == |old_names|
      && new_names[k] == b
      && (forall j :: 0 <= j < |old_names| && j != k ==> new_names[j] == old_names[j])
      && Count(new_names, a) == Count(old_names, a) - 1
      && b in new_names
    ensures Update(s, a, Some(b)).outcome == Redirect(MemberPath(b))
  {
    var names := Load(s.file);
    ReplaceFirstWellFormed(names, a, b);
    LoadStoredRoundTrip(ReplaceFirst(names, a, b).value);
    ReplaceFirstCounts(names, a, b);
  }

  /**
   * Deleting `id` leaves no `id`: the rest keep their order, except that
   * empty lines left at the end are lost when the file is read back. With no
   * empty entries the roster shrinks by exactly the number of matches.
   */
  lemma DeleteRemoves(s: State, id: string)
    ensures var new_names := Load(Delete(s, id).state.file);
      && id !in new_names
      && new_names == DropTrailingEmpty(Reject(Load(s.file), id))
    ensures [] !in Load(s.file) ==>
      var new_names := Load(Delete(s, id).state.file);
      new_names == Reject(Load(s.file), id) && |new_names| == |Load(s.file)| - Count(Load(s.file), id)
  {
    var kept := Reject(Load(s.file), id);
    RejectAllLines(Load(s.file), id);
    LoadStored(kept);
    if [] !in Load(s.file) {
      assert [] !in kept;
      assert kept == [] || kept[|kept| - 1] != [];
    }
  }

  /**
   * The flash is shown once: the request after a successful create shows
   * the saved-member message, and the request after that shows none.
   */
  lemma FlashShownOnce(s: State, n: string)
    requires Create(s, Some(n)).outcome.Redirect?
    ensures var after := Create(s, Some(n)).state;
      && Handle(after, GET).notice == Some(SavedMessage(n))
      && Handle(Handle(after, GET).step.state, GET).notice == None
  {
  }

  /**
   * Every request consumes the flash: it is shown to the request that
   * follows the one that set it and to no other. The request after `req`
   * sees a message exactly when `req` redirected, whatever route `req` took,
   * and whether it was refused or raised.
   */
  lemma FlashConsumed(s: State, req: Request, next: Request)
    ensures var first := Handle(s, req);
      && first.notice == s.flash
      && (Handle(first.step.state, next).notice.Some? <==> first.step.outcome.Redirect?)
  {
  }

  /**
   * Creating in a file that holds two names and no trailing newline: the
   * second name is refused as a duplicate with the file unchanged, and a new
   * name redirects to its page but is glued onto the second name.
   */
  lemma CreateOnTwoNames(a: string, b: string, n: string, flash: Option<string>)
    requires IsLine(a) && IsLine(b) && IsLine(n) && b != [] && n != [] && n != a && n != b
    ensures var s := State(Some(a + "\n" + b), flash);
      Create(s, Some(b)) == Step(s, Rerender(b, [DuplicateMessage(b)]))
    ensures var s := State(Some(a + "\n" + b), flash);
      && Create(s, Some(n)).outcome == Redirect(MemberPath(n))
      && Load(Create(s, Some(n)).state.file) == [a, b + n]
  {
    var names: seq<string> := [a, b];
    assert Join(names) == a + "\n" + b;
    LoadStoredRoundTrip(names);
    AppendTwoNames(a, b, n);
  }

  /**
   * The create scenarios of the application's request specs, with the file
   * holding "Anja\nMaren": "Maren" is refused as a duplicate and the file is
   * unchanged; "Monsta" redirects to its page, but is glued to "Maren" in the file.
   */
  lemma CreateScenarios(flash: Option<string>)
    ensures var s := State(Some("Anja" + "\n" + "Maren"), flash);
      Create(s, Some("Maren")) == Step(s, Rerender("Maren", ["Maren" + " is already included in our list."]))
    ensures var s := State(Some("Anja" + "\n" + "Maren"), flash);
      && Create(s, Some("Monsta")).outcome == Redirect("/members" + "/" + "Monsta")
      && Load(Create(s, Some("Monsta")).state.file) == ["Anja", "Maren" + "Monsta"]
  {
    CreateOnTwoNames("Anja", "Maren", "Monsta", flash);
  }
}
