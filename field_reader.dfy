/** The member-name fallback inside `scrape_chat_members`
    (app/main.rb:93-102).

    For one roster element the source reads three texts of its name element,
    each already stripped: the visible text (never nil), the `innerText`
    attribute (may be nil) and the script-evaluated `textContent` (may be
    nil). It keeps the first that is present and non-empty, or "". All three
    are read inside one `begin ... rescue`, so if any lookup raises, even after
    the visible text was read, the name is "". */
module FieldReader {
  import opened Sequences

  datatype Member =
    | Failed
    | Texts(t1: string, t2: Option<string>, t3: Option<string>)

  /** The block given to `find`: present and not empty. */
  predicate Usable(candidate: Option<string>) {
    candidate.Some? && candidate.value != ""
  }

  /** Ruby's `candidates.find { |x| x && !x.empty? } || ""`. */
  function FirstUsable(candidates: seq<Option<string>>): (name: string)
    ensures name == "" <==> forall i :: 0 <= i < |candidates| ==> !Usable(candidates[i])
    ensures name != "" ==>
      exists i :: 0 <= i < |candidates| && candidates[i] == Some(name) &&
        forall j :: 0 <= j < i ==> !Usable(candidates[j])
    decreases |candidates|
  {
    if candidates == [] then ""
    else if Usable(candidates[0]) then candidates[0].value
    else
      var name := FirstUsable(candidates[1..]);
      assert forall i :: 1 <= i < |candidates| ==> candidates[i] == candidates[1..][i - 1];
      name
  }

  /** The name the source records for one roster element. */
  function MemberName(m: Member): (name: string)
    ensures name == "" <==> m.Failed? || (m.t1 == "" && !Usable(m.t2) && !Usable(m.t3))
    ensures name != "" ==> m.Texts? && (name == m.t1 || m.t2 == Some(name) || m.t3 == Some(name))
  {
    match m
    case Failed => ""
    case Texts(t1, t2, t3) =>
      var c := [Some(t1), t2, t3];
      assert c[0] == Some(t1) && c[1] == t2 && c[2] == t3;
      assert forall i :: 0 <= i < 3 ==> c[i] == Some(t1) || c[i] == t2 || c[i] == t3;
      FirstUsable(c)
  }

  /** The fallback order, source by source. */
  lemma MemberNameFallback(m: Member)
    ensures m.Failed? ==> MemberName(m) == ""
    ensures m.Texts? && m.t1 != "" ==> MemberName(m) == m.t1
    ensures m.Texts? && m.t1 == "" && Usable(m.t2) ==> MemberName(m) == m.t2.value
    ensures m.Texts? && m.t1 == "" && !Usable(m.t2) && Usable(m.t3) ==>
      MemberName(m) == m.t3.value
    ensures m.Texts? && m.t1 == "" && !Usable(m.t2) && !Usable(m.t3) ==> MemberName(m) == ""
  {
    if m.Texts? {
      var c := [Some(m.t1), m.t2, m.t3];
      assert c[1..] == [m.t2, m.t3] && c[1..][1..] == [m.t3];
      if m.t1 == "" {
        assert !Usable(c[0]);
        assert MemberName(m) == FirstUsable([m.t2, m.t3]);
        if !Usable(m.t2) {
          assert FirstUsable([m.t2, m.t3]) == FirstUsable([m.t3]);
        }
      }
    }
  }

  /** Visible text and `innerText` both empty, `textContent` "Zed": the
      name is "Zed". */
  lemma ThirdSourceExample()
    ensures MemberName(Texts("", Some(""), Some("Zed"))) == "Zed"
  {
    MemberNameFallback(Texts("", Some(""), Some("Zed")));
  }
}
