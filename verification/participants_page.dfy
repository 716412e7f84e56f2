/**
 * The participant management page: single create/rename, bulk create from a
 * block of text with one name per line, and the active toggle.
 */
module ParticipantsPage {
  import opened Wrappers
  import opened Text
  import opened Records
  import opened Requests
  import Seqs
  import ParticipantsRoute
  import ParticipantsMemberRoute

  /** The error alerts the page can raise before sending anything. */
  datatype Notice = EnterName | EnterNames

  /** `names.map(n => n.trim())`. */
  function TrimAll(lines: seq<string>): (r: seq<string>)
    ensures |r| == |lines|
    ensures forall i :: 0 <= i < |r| ==> r[i] == Trim(lines[i])
  {
    seq(|lines|, i requires 0 <= i < |lines| => Trim(lines[i]))
  }

  /** `.filter(n => n.length > 0)`. */
  function NonEmpty(names: seq<string>): seq<string> {
    Seqs.Filter(names, (n: string) => |n| > 0)
  }

  /** The name list `handleBulkSubmit` builds: lines split on `'\n'`, trimmed, empties dropped. */
  function ParseBulk(text: string): seq<string> {
    NonEmpty(TrimAll(Split(text, '\n')))
  }

  /** Every parsed name is a non-empty, trimmed single line, and the names keep the order of
      the lines they came from. */
  lemma ParsedNames(text: string)
    ensures var names := ParseBulk(text);
            forall i :: 0 <= i < |names| ==> names[i] != "" && IsTrimmed(names[i]) && '\n' !in names[i]
    ensures Seqs.IsSubsequence(ParseBulk(text), TrimAll(Split(text, '\n')))
  {
    var lines := Split(text, '\n');
    var names := ParseBulk(text);
    forall i | 0 <= i < |names| ensures '\n' !in names[i] {
      var j :| 0 <= j < |lines| && TrimAll(lines)[j] == names[i];
      TrimInfix(lines[j], '\n');
    }
  }

  /** Trimming never introduces a character. */
  lemma TrimInfix(s: string, c: char)
    requires c !in s
    ensures c !in Trim(s)
  {
    var i :| TrimmedAt(s, Trim(s), i);
  }

  /** The same name list computed in one pass over the text, keeping the current line and
      emitting its trimmed form at each line break when it is not empty. */
  method ScanNames(text: string) returns (names: seq<string>)
    ensures names == ParseBulk(text)
  {
    names := [];
    var line := "";
    ghost var done: seq<string> := [];
    var i := 0;
    while i < |text|
      invariant 0 <= i <= |text|
      invariant Split(text[..i], '\n') == done + [line]
      invariant names == NonEmpty(TrimAll(done))
    {
      var c := text[i];
      SplitStep(text, i, done, line);
      if c == '\n' {
        NamesAfterLine(done, line);
        var t := Trim(line);
        if |t| > 0 {
          names := names + [t];
        }
        done := done + [line];
        line := "";
      } else {
        line := line + [c];
      }
      i := i + 1;
    }
    assert text[..i] == text;
    NamesAfterLine(done, line);
    var t := Trim(line);
    if |t| > 0 {
      names := names + [t];
    }
  }

  /** Reading one more character either closes the current line or extends it. */
  lemma SplitStep(text: string, i: int, done: seq<string>, line: string)
    requires 0 <= i < |text| && Split(text[..i], '\n') == done + [line]
    ensures text[i] == '\n' ==> Split(text[..i + 1], '\n') == (done + [line]) + [""]
    ensures text[i] != '\n' ==> Split(text[..i + 1], '\n') == done + [line + [text[i]]]
  {
    assert text[..i + 1] == text[..i] + [text[i]];
    SplitSnoc(text[..i], text[i], '\n');
    assert (done + [line])[..|done|] == done;
  }

  /** Closing a line adds its trimmed form to the names exactly when that is not empty. */
  lemma NamesAfterLine(done: seq<string>, line: string)
    ensures NonEmpty(TrimAll(done + [line]))
         == NonEmpty(TrimAll(done)) + (if |Trim(line)| > 0 then [Trim(line)] else [])
  {
    TrimAllAppend(done, [line]);
    Seqs.FilterAppend(TrimAll(done), TrimAll([line]), (n: string) => |n| > 0);
    NamesOfLine(line);
  }

  /** A single line yields its trimmed form when that is not empty, and nothing otherwise. */
  lemma NamesOfLine(line: string)
    ensures NonEmpty(TrimAll([line])) == if |Trim(line)| > 0 then [Trim(line)] else []
  {
    assert TrimAll([line]) == [Trim(line)];
    assert TrimAll([line])[1..] == [];
  }

  /** Trimming line by line distributes over concatenation. */
  lemma TrimAllAppend(a: seq<string>, b: seq<string>)
    ensures TrimAll(a + b) == TrimAll(a) + TrimAll(b)
  {
    assert |TrimAll(a + b)| == |TrimAll(a) + TrimAll(b)|;
    forall i | 0 <= i < |a + b| ensures TrimAll(a + b)[i] == (TrimAll(a) + TrimAll(b))[i] {
      if i < |a| {
        assert (a + b)[i] == a[i];
      } else {
        assert (a + b)[i] == b[i - |a|];
      }
    }
  }

  /** Bulk parsing reads back any list of names written one per line, as long as every name is
      non-empty, already trimmed and free of line breaks. */
  lemma ParseBulkJoin(names: seq<string>)
    requires |names| >= 1
    requires forall i :: 0 <= i < |names| ==> names[i] != "" && IsTrimmed(names[i]) && '\n' !in names[i]
    ensures ParseBulk(Join(names, '\n')) == names
  {
    SplitJoin(names, '\n');
    TrimAllOfTrimmed(names);
    Seqs.FilterKeepsAll(names, (n: string) => |n| > 0);
  }

  /** Trimming already trimmed lines changes nothing. */
  lemma TrimAllOfTrimmed(names: seq<string>)
    requires forall i :: 0 <= i < |names| ==> IsTrimmed(names[i])
    ensures TrimAll(names) == names
  {
    forall i | 0 <= i < |names| ensures TrimAll(names)[i] == names[i] {
      TrimOfTrimmed(names[i]);
    }
  }

  /** A line of nothing but spaces contributes no name. */
  lemma ParseBulkSkipsBlank(lines: seq<string>, i: int)
    requires |lines| >= 2 && forall l :: l in lines ==> '\n' !in l
    requires 0 <= i < |lines| && AllSpace(lines[i])
    ensures ParseBulk(Join(lines, '\n')) == ParseBulk(Join(lines[..i] + lines[i + 1..], '\n'))
  {
    SplitWithout(lines, i);
    NamesWithoutBlank(lines[..i], lines[i], lines[i + 1..]);
  }

  /** The lines of a text are read back by `Split`, with or without line `i`. */
  lemma SplitWithout(lines: seq<string>, i: int)
    requires |lines| >= 2 && forall l :: l in lines ==> '\n' !in l
    requires 0 <= i < |lines|
    ensures Split(Join(lines, '\n'), '\n') == lines[..i] + [lines[i]] + lines[i + 1..]
    ensures Split(Join(lines[..i] + lines[i + 1..], '\n'), '\n') == lines[..i] + lines[i + 1..]
  {
    Seqs.Around(lines, i);
    Seqs.WithoutIn(lines, i);
    SplitJoin(lines, '\n');
    SplitJoin(lines[..i] + lines[i + 1..], '\n');
  }

  /** Dropping an all-space line leaves the names unchanged. */
  lemma NamesWithoutBlank(a: seq<string>, x: string, b: seq<string>)
    requires AllSpace(x)
    ensures NonEmpty(TrimAll(a + [x] + b)) == NonEmpty(TrimAll(a + b))
  {
    TrimAllBlank(a, x, b);
    TrimAllAppend(a, b);
    NonEmptySkipsEmpty(TrimAll(a), TrimAll(b));
  }

  /** An all-space line trims to the empty string. */
  lemma TrimAllBlank(a: seq<string>, x: string, b: seq<string>)
    requires AllSpace(x)
    ensures TrimAll(a + [x] + b) == TrimAll(a) + [""] + TrimAll(b)
  {
    TrimAllAppend(a + [x], b);
    TrimAllAppend(a, [x]);
    TrimEmptyIff(x);
    assert TrimAll([x]) == [""];
  }

  /** The empty string is never a name. */
  lemma NonEmptySkipsEmpty(a: seq<string>, b: seq<string>)
    ensures NonEmpty(a + [""] + b) == NonEmpty(a + b)
  {
    var keep := (n: string) => |n| > 0;
    Seqs.FilterAppend(a + [""], b, keep);
    Seqs.FilterAppend(a, [""], keep);
    Seqs.FilterAppend(a, b, keep);
    assert Seqs.Filter([""], keep) == [];
    assert Seqs.Filter(a, keep) + [] == Seqs.Filter(a, keep);
  }

  /** A worked instance: an empty line and a line of spaces between three names are skipped. */
  lemma ParseBulkExample()
    ensures ParseBulk("Alice\n\nBob\n  \nCarol") == ["Alice", "Bob", "Carol"]
  {
    ExampleText();
    ExampleDropsSpaces();
    ExampleDropsEmpty();
    ExampleNames();
  }

  lemma ExampleText()
    ensures Join(["Alice", "", "Bob", "  ", "Carol"], '\n') == "Alice\n\nBob\n  \nCarol"
  {
  }

  lemma ExampleDropsSpaces()
    ensures ParseBulk(Join(["Alice", "", "Bob", "  ", "Carol"], '\n'))
         == ParseBulk(Join(["Alice", "", "Bob", "Carol"], '\n'))
  {
    var lines := ["Alice", "", "Bob", "  ", "Carol"];
    ParseBulkSkipsBlank(lines, 3);
    assert lines[..3] + lines[4..] == ["Alice", "", "Bob", "Carol"];
  }

  lemma ExampleDropsEmpty()
    ensures ParseBulk(Join(["Alice", "", "Bob", "Carol"], '\n'))
         == ParseBulk(Join(["Alice", "Bob", "Carol"], '\n'))
  {
    var lines := ["Alice", "", "Bob", "Carol"];
    ParseBulkSkipsBlank(lines, 1);
    assert lines[..1] + lines[2..] == ["Alice", "Bob", "Carol"];
  }

  lemma ExampleNames()
    ensures ParseBulk(Join(["Alice", "Bob", "Carol"], '\n')) == ["Alice", "Bob", "Carol"]
  {
    ParseBulkJoin(["Alice", "Bob", "Carol"]);
  }

  /** `handleBulkSubmit`: no surviving name raises an alert and sends nothing; otherwise one
      `POST /api/participants` with body `{ name }` per parsed name, in order. */
  function BulkSubmit(text: string): (r: Result<seq<Request>, Notice>)
    ensures r.Err? <==> ParseBulk(text) == []
    ensures r.Err? ==> r.error == EnterNames
    ensures r.Ok? ==> |r.value| == |ParseBulk(text)|
    ensures r.Ok? ==> forall i :: 0 <= i < |r.value| ==>
              r.value[i] == Request(Post, Collection(Participants), NameBody(ParseBulk(text)[i]))
  {
    var names := ParseBulk(text);
    if |names| == 0 then
      Err(EnterNames)
    else
      Ok(seq(|names|, i requires 0 <= i < |names| => Request(Post, Collection(Participants), NameBody(names[i]))))
  }

  /** Every name a bulk submit sends passes the create handler's check and is stored unchanged. */
  lemma BulkNamesAccepted(db: Db, text: string, i: int, now: int)
    requires Valid(db) && 0 <= i < |ParseBulk(text)|
    ensures var n := ParseBulk(text)[i];
            var (db', reply) := ParticipantsRoute.CreateParticipant(db, Some(n), now, false);
            reply.Created? && reply.body.name == n
  {
    ParsedNames(text);
    var names := ParseBulk(text);
    var n := names[i];
    assert n != "" && IsTrimmed(n);
    TrimOfTrimmed(n);
    assert !NameMissing(Some(n));
  }

  /** `handleOpenDialog`: the participant being edited, if any, and the name field it pre-fills. */
  function OpenDialog(p: Option<Participant>): (r: (Option<Participant>, string))
    ensures r.0 == p
    ensures p.Some? ==> r.1 == p.value.name
    ensures p.None? ==> r.1 == ""
  {
    if p.Some? then (p, p.value.name) else (None, "")
  }

  /** `handleCloseDialog`: nothing is being edited and the name field is empty. */
  function CloseDialog(): (r: (Option<Participant>, string))
    ensures r.0.None? && r.1 == ""
  {
    (None, "")
  }

  /** Saving an opened dialog unchanged renames a stored participant to the name it already has:
      stored names are trimmed and non-empty, so the trim check passes and trimming is a no-op. */
  lemma ReopenedNameResent(p: Participant)
    requires p.name != "" && IsTrimmed(p.name)
    ensures var (editing, name) := OpenDialog(Some(p));
            Submit(name, editing) == Ok(Request(Put, Member(Participants, p.id), NameBody(p.name)))
  {
    SubmitStoredName(p);
    assert OpenDialog(Some(p)) == (Some(p), p.name);
  }

  lemma SubmitStoredName(p: Participant)
    requires p.name != "" && IsTrimmed(p.name)
    ensures Submit(p.name, Some(p)) == Ok(Request(Put, Member(Participants, p.id), NameBody(p.name)))
  {
    TrimOfTrimmed(p.name);
    TrimmedNotBlank(p.name);
  }

  /** Saving an opened dialog unchanged leaves the store as it was: the stored name is sent back
      and the update handler writes the row it already holds. */
  lemma ReopenedParticipantUnchanged(db: Db, k: int)
    requires Valid(db) && k in db.participants
    requires db.participants[k].name != "" && IsTrimmed(db.participants[k].name)
    ensures var p := db.participants[k];
            var (editing, name) := OpenDialog(Some(p));
            && Submit(name, editing).Ok?
            && ParticipantsMemberRoute.UpdateParticipant(db, k, Some(Submit(name, editing).value.body.name), None) == (db, Success(p))
  {
    var p := db.participants[k];
    ReopenedNameResent(p);
    ParticipantsMemberRoute.StoredNameRewritten(db, k);
  }

  /** Closing the dialog resets it to what opening it for a new participant shows, so a closed
      dialog cannot be saved. */
  lemma ClosedDialogRefused()
    ensures CloseDialog() == OpenDialog(None)
    ensures var (editing, name) := CloseDialog();
            Submit(name, editing) == Err(EnterName)
  {
  }

  /** An empty dialog cannot be saved. */
  lemma FreshDialogRefused()
    ensures var (editing, name) := OpenDialog(None);
            Submit(name, editing) == Err(EnterName)
  {
  }

  /** `handleSubmit` with the dialog's name and the participant being edited, if any: a name that
      is blank after trimming raises an alert and sends nothing; otherwise the trimmed name is sent,
      by PUT to the edited participant or by POST to the collection. */
  function Submit(name: string, editing: Option<Participant>): (r: Result<Request, Notice>)
    ensures r.Err? <==> AllSpace(name)
    ensures r.Err? ==> r.error == EnterName
    ensures r.Ok? ==> r.value.body == NameBody(Trim(name)) && r.value.body.name != "" && IsTrimmed(r.value.body.name)
    ensures r.Ok? && editing.Some? ==> r.value.verb == Put && r.value.endpoint == Member(Participants, editing.value.id)
    ensures r.Ok? && editing.None? ==> r.value.verb == Post && r.value.endpoint == Collection(Participants)
  {
    TrimEmptyIff(name);
    if Trim(name) == "" then
      Err(EnterName)
    else if editing.Some? then
      Ok(Request(Put, Member(Participants, editing.value.id), NameBody(Trim(name))))
    else
      Ok(Request(Post, Collection(Participants), NameBody(Trim(name))))
  }

  /** `handleToggleActive`: a PUT to the participant carrying only the negated flag. */
  function Toggle(p: Participant): (r: Request)
    ensures r.verb == Put && r.endpoint == Member(Participants, p.id)
    ensures r.body.ActiveBody? && r.body.isActive != p.isActive
  {
    Request(Put, Member(Participants, p.id), ActiveBody(!p.isActive))
  }

  /** The toggle flips the stored flag: the update handler, given the toggle's body, writes the
      participant's row with the flag negated and nothing else changed, and toggling the returned
      row again restores the store. */
  lemma ToggleFlipsStoredFlag(db: Db, k: int)
    requires Valid(db) && k in db.participants
    ensures var p := db.participants[k];
            var req := Toggle(p);
            var (db1, reply) := ParticipantsMemberRoute.UpdateParticipant(db, req.endpoint.id, None, Some(req.body.isActive));
            && reply.Success? && reply.body == p.(isActive := !p.isActive)
            && db1 == db.(participants := db.participants[k := reply.body])
            && ParticipantsMemberRoute.UpdateParticipant(db1, k, None, Some(Toggle(reply.body).body.isActive)).0 == db
  {
    var p := db.participants[k];
    var (db1, reply) := ParticipantsMemberRoute.UpdateParticipant(db, k, None, Some(!p.isActive));
    assert db1.participants[k := p] == db.participants;
  }
}
