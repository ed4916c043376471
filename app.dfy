/**
 * The application object: the member file and the session's flash message
 * as fields, the store helpers and the mutating routes as methods. The
 * routes build `Member` and `MemberValidator` objects as the application
 * does; each route's contract ties its effect to the state machine in
 * routes.dfy.
 */
module Application {
  import opened Wrappers
  import opened Lines
  import opened Roster
  import opened Store
  import opened Members
  import opened Validation
  import opened Routes

  class App {
    /** The text of the member file, `None` while it does not exist. */
    var file: Option<string>
    /** `session[:message]`, the flash for the next request. */
    var flash: Option<string>

    constructor (file: Option<string>)
      ensures this.file == file && flash == None
    {
      this.file := file;
      flash := None;
    }

    /** The state the routes act on. */
    function Current(): State
      reads this
    {
      State(file, flash)
    }

    /** `members`: a fresh `Member` for each name, in file order. */
    method Members() returns (ms: seq<Member>)
      ensures |ms| == |Load(file)|
      ensures forall i :: 0 <= i < |ms| ==> fresh(ms[i]) && ms[i].name == Load(file)[i]
    {
      var names := Load(file);
      ms := [];
      var i := 0;
      while i < |names|
        invariant 0 <= i <= |names|
        invariant |ms| == i
        invariant forall j :: 0 <= j < i ==> fresh(ms[j]) && ms[j].name == names[j]
      {
        var m := new Member(Some(names[i]));
        ms := ms + [m];
        i := i + 1;
      }
    }

    /** `find_member(id)`: the first member whose id is `id`, or nil. */
    method FindMember(id: string) returns (m: Member?)
      ensures m == null <==> id !in Load(file)
      ensures m != null ==> fresh(m) && m.Id() == id
    {
      var ms := Members();
      m := Detect(ms, id);
      if m == null {
        NotFound(ms, Load(file), id);
      }
    }

    /** `add_member(name)`: opens the file for appending, creating it, and writes the bare name. */
    method AddMember(name: string)
      modifies this`file
      ensures file == Appended(old(file), name)
    {
      file := Some(Content(file) + name);
    }

    /** `store(lines)`: truncates the file, creating it, and writes the lines joined by newlines. */
    method Store(lines: seq<string>)
      modifies this`file
      ensures file == Stored(lines)
      ensures AllLines(lines) ==> Load(file) == DropTrailingEmpty(lines)
    {
      file := Some(Join(lines));
      if AllLines(lines) {
        LoadStored(lines);
      }
    }

    /**
     * `update_member(id, name)`: overwrites the first `id` among the names and
     * stores them. Without an `id` the index is nil and the assignment raises:
     * `ok` is false and the file is not touched.
     */
    method UpdateMember(id: string, name: string) returns (ok: bool)
      modifies this`file
      ensures ok <==> id in old(Load(file))
      ensures ok ==> file == Stored(ReplaceFirst(old(Load(file)), id, name).value)
      ensures !ok ==> file == old(file)
    {
      var lines := Load(file);
      var k := IndexOf(lines, id);
      if k.None? {
        return false;
      }
      lines := lines[k.value := name];
      Store(lines);
      ok := true;
    }

    /** `remove_member(name)`: stores the names with every entry equal to `name` dropped. */
    method RemoveMember(name: string)
      modifies this`file
      ensures file == Stored(Reject(old(Load(file)), name))
    {
      var lines := Reject(Load(file), name);
      Store(lines);
    }

    /** The `before` filter: takes the flash out of the session. */
    method Before() returns (message: Option<string>)
      modifies this`flash
      ensures message == old(flash) && flash == None
    {
      message := flash;
      flash := None;
    }

    /**
     * The validation step both the create and the update route take:
     * `MemberValidator.new(@member, members)` against a freshly loaded
     * roster, then `valid?`. The validator's messages are returned for the form.
     */
    method ValidateAgainstRoster(member: Member) returns (valid: bool, messages: seq<string>)
      ensures messages == Messages(member.name, Load(file))
      ensures valid <==> messages == []
    {
      ghost var names := Load(file);
      ghost var name := member.name;
      var ms := Members();
      var validator := new MemberValidator(member, ms);
      assert validator.Names() == names;
      valid := validator.Valid();
      assert validator.Names() == names && member.name == name;
      messages := validator.messages;
    }

    /** POST /members. */
    method PostMembers(param: Option<string>) returns (out: Outcome)
      modifies this
      ensures Step(Current(), out) == Create(old(Current()), param)
    {
      var member := new Member(param);
      var valid, messages := ValidateAgainstRoster(member);
      if valid {
        AddMember(member.name);
        flash := Some(SavedMessage(member.name));
        out := Redirect(MemberPath(member.Id()));
      } else {
        out := Rerender(member.name, messages);
      }
    }

    /** PUT /members/:id. */
    method PutMember(id: string, param: Option<string>) returns (out: Outcome)
      modifies this
      ensures Step(Current(), out) == Update(old(Current()), id, param)
    {
      var member := FindMember(id);
      if member == null {
        // `@member.name = ...` on nil raises NoMethodError
        return ServerError;
      }
      if param.None? {
        // the name becomes nil, and `validate` raises NoMethodError on `nil.empty?`
        return ServerError;
      }
      member.SetName(param.value);
      var valid, messages := ValidateAgainstRoster(member);
      if valid {
        var updated := UpdateMember(id, member.name);
        flash := Some(UpdatedMessage(member.name));
        out := Redirect(MemberPath(member.Id()));
      } else {
        out := Rerender(member.name, messages);
      }
    }

    /** DELETE /members/:id. */
    method DeleteMember(id: string) returns (out: Outcome)
      modifies this
      ensures Step(Current(), out) == Delete(old(Current()), id)
    {
      RemoveMember(id);
      flash := Some(RemovedMessage(id));
      out := Redirect(MembersPath);
    }

    /** One request: the `before` filter, then the route the request names. */
    method Serve(req: Request) returns (notice: Option<string>, out: Outcome)
      modifies this
      ensures Exchange(notice, Step(Current(), out)) == Handle(old(Current()), req)
    {
      notice := Before();
      match req
      case GET => out := Page;
      case POST(n) => out := PostMembers(n);
      case PUT(id, n) => out := PutMember(id, n);
      case DELETE(id) => out := DeleteMember(id);
    }
  }

  /** `members.detect { |member| member.id == id }`: the first member with that id, or nil. */
  method Detect(ms: seq<Member>, id: string) returns (m: Member?)
    ensures m == null <==> forall j :: 0 <= j < |ms| ==> ms[j].name != id
    ensures m != null ==>
      exists k :: 0 <= k < |ms| && m == ms[k] && m.name == id && (forall j :: 0 <= j < k ==> ms[j].name != id)
  {
    var i := 0;
    while i < |ms|
      invariant 0 <= i <= |ms|
      invariant forall j :: 0 <= j < i ==> ms[j].name != id
    {
      if ms[i].Id() == id {
        return ms[i];
      }
      i := i + 1;
    }
    return null;
  }

  /** A name that no member of a roster has is not among the roster's names. */
  lemma NotFound(ms: seq<Member>, names: seq<string>, id: string)
    requires |ms| == |names|
    requires forall j :: 0 <= j < |ms| ==> ms[j].name == names[j]
    requires forall j :: 0 <= j < |ms| ==> ms[j].name != id
    ensures id !in names
  {
  }

  /**
   * The rename walk-through of the feature specs on a file holding
   * "Anja\nMaren\n": renaming Anja to Tyranja redirects to the new page,
   * the next request shows the update message, and the roster then reads
   * "Tyranja", "Maren".
   */
  method RenameWalkThrough() returns (landing: Outcome, message: Option<string>, roster: seq<string>)
    ensures landing == Redirect(MemberPath("Tyranja"))
    ensures message == Some(UpdatedMessage("Tyranja"))
    ensures roster == ["Tyranja", "Maren"]
  {
    UpdateOnTwoNames("Anja", "Maren", "Tyranja", None);
    var app := new App(Some(Join(["Anja", "Maren"]) + "\n"));
    var notice, out := app.Serve(PUT("Anja", Some("Tyranja")));
    landing := out;
    roster := Load(app.file);
    message, out := app.Serve(GET);
  }
}
