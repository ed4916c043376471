/**
 * The validation rule for a candidate member name against the current
 * roster, and the validator object that collects its messages.
 */
module Validation {
  import opened Members

  const EmptyNameMessage: string := "You need to enter a name"

  /** The message for a name that is already on the roster. */
  function DuplicateMessage(name: string): string
  {
    name + " is already included in our list."
  }

  /**
   * The messages one `validate` pass adds: the empty-name rule is checked
   * first and short-circuits the duplicate rule, so at most one message.
   */
  function Messages(name: string, names: seq<string>): (r: seq<string>)
    ensures |r| <= 1
    ensures r == [] <==> name != [] && name !in names
    ensures name == [] ==> r == [EmptyNameMessage]
    ensures name != [] && name in names ==> r == [DuplicateMessage(name)]
  {
    if name == [] then [EmptyNameMessage]
    else if name in names then [DuplicateMessage(name)]
    else []
  }

  class MemberValidator {
    const member: Member
    const members: seq<Member>
    var messages: seq<string>

    /** `MemberValidator.new(member, members)`: no messages yet. */
    constructor (member: Member, members: seq<Member>)
      ensures this.member == member && this.members == members
      ensures messages == []
    {
      this.member := member;
      this.members := members;
      messages := [];
    }

    /** The private `names`: the names of the members validated against. */
    function Names(): (r: seq<string>)
      reads this, members
      ensures |r| == |members|
      ensures forall i :: 0 <= i < |members| ==> r[i] == members[i].name
    {
      seq(|members|, i requires 0 <= i < |members| reads members => members[i].name)
    }

    /** The private `validate`: appends the rule's message, if any; only `messages` changes. */
    method Validate()
      modifies this
      ensures messages == old(messages) + Messages(member.name, Names())
    {
      if member.name == [] {
        messages := messages + [EmptyNameMessage];
      } else if member.name in Names() {
        messages := messages + [DuplicateMessage(member.name)];
      }
    }

    /**
     * `valid?`: runs `validate`, then answers whether there are no messages.
     * On a fresh validator that is "the name is non-empty and not yet on the roster".
     */
    method Valid() returns (ok: bool)
      modifies this
      ensures messages == old(messages) + Messages(member.name, Names())
      ensures ok <==> messages == []
      ensures old(messages) == [] ==> (ok <==> member.name != [] && member.name !in Names())
    {
      Validate();
      ok := messages == [];
    }
  }
}
