/** The team page: `parseTeamCSV` (utils/api.ts:36-83). Columns are found by the
    first header cell of each name; a sheet without a `Name` or a `job` column yields
    nobody. Members whose job is the word for "volunteer" are listed apart. */
module Team {
  import opened Types
  import opened Text
  import opened Csv
  import Uri

  const NameColumn: string := "Name"
  const JobColumn: string := "job"
  const ImageColumn: string := "ImageURL"

  /** "Team member": the job of a member whose job cell is empty. */
  const DefaultJob: string := "عضو فريق"
  /** "Volunteer". */
  const VolunteerMarker: string := "متطوع"

  const AvatarPrefix: string := "https://ui-avatars.com/api/?name="
  const AvatarSuffix: string := "&background=0284c7&color=fff&size=300"

  /** The ui-avatars.com picture of a member without one of their own. The name stays
      inside the `name` parameter: it cannot end it or add another one. */
  function AvatarImage(name: string): (r: string)
    ensures Uri.EmbedsComponent(r, AvatarPrefix, name, AvatarSuffix)
  {
    Uri.Embed(AvatarPrefix, name, AvatarSuffix);
    AvatarPrefix + Uri.EncodeComponent(name) + AvatarSuffix
  }

  /** `jobTitle.trim().toLowerCase() === 'متطوع'`. The marker has no letter that has
      case, so the lower-casing changes nothing: the test is whether the job, trimmed,
      is the marker. */
  predicate IsVolunteer(m: TeamMember)
    ensures IsVolunteer(m) <==> Trim(m.jobTitle) == VolunteerMarker
  {
    MarkerOnlyFromItself(Trim(m.jobTitle));
    LowerCase(Trim(m.jobTitle)) == VolunteerMarker
  }

  /** Where the name, job and (optional) picture of a member are in a row. */
  datatype Columns = Columns(name: nat, job: nat, image: Option<nat>)

  predicate FitsWidth(cols: Columns, width: nat) {
    cols.name < width && cols.job < width && (cols.image.Some? ==> cols.image.value < width)
  }

  /** The column positions, each the first header cell of its name; `None` when the
      sheet has no `Name` or no `job` column. */
  function TeamColumns(headers: seq<string>): (r: Option<Columns>)
    ensures r.Some? <==> NameColumn in headers && JobColumn in headers
    ensures r.Some? ==> FitsWidth(r.value, |headers|)
  {
    match (IndexOf(headers, NameColumn), IndexOf(headers, JobColumn))
    case (Some(n), Some(j)) => Some(Columns(n, j, IndexOf(headers, ImageColumn)))
    case _ => None
  }

  /** The member a row of cells describes; `None` when the name cell is empty or the
      skip marker. A missing picture column reads as an empty cell. */
  function MemberOfRow(cols: Columns, values: seq<string>): (r: Option<TeamMember>)
    requires FitsWidth(cols, |values|)
    ensures r.Some? ==> Usable(Some(r.value.name)) && r.value.jobTitle != []
  {
    var name := values[cols.name];
    if !Usable(Some(name)) then None
    else
      var image := if cols.image.Some? then values[cols.image.value] else "";
      Some(TeamMember(
        name := name,
        jobTitle := OrElse(Some(values[cols.job]), DefaultJob),
        imageUrl := if Usable(Some(image)) then image else AvatarImage(name)))
  }

  /** The member one data line yields, if any. */
  function MemberOfLine(headers: seq<string>, cols: Columns, line: string): Option<TeamMember>
    requires FitsWidth(cols, |headers|)
  {
    match DataRow(|headers|, line)
    case None => None
    case Some(values) => MemberOfRow(cols, values)
  }

  function MemberReader(headers: seq<string>, cols: Columns): string -> Option<TeamMember>
    requires FitsWidth(cols, |headers|)
  {
    line => MemberOfLine(headers, cols, line)
  }

  /** The members of the data lines under a header, in line order. */
  function MembersOf(headers: seq<string>, cols: Columns, rows: seq<string>): seq<TeamMember>
    requires FitsWidth(cols, |headers|)
  {
    FilterMap(rows, MemberReader(headers, cols))
  }

  /** Whether a member is a volunteer (`volunteer` true) or not. */
  function OfKind(volunteer: bool): TeamMember -> bool {
    m => IsVolunteer(m) == volunteer
  }

  /** The members that are volunteers (`volunteer` true) or not, in their order. */
  function Keep(ms: seq<TeamMember>, volunteer: bool): seq<TeamMember> {
    Filter(ms, OfKind(volunteer))
  }

  /** A list holds exactly the members of its kind. */
  lemma KeepMembers(ms: seq<TeamMember>, volunteer: bool)
    ensures forall m :: m in Keep(ms, volunteer) <==> m in ms && IsVolunteer(m) == volunteer
  {
    FilterMembers(ms, OfKind(volunteer));
  }

  /** The result the parser is meant to compute: the named members of the sheet,
      non-volunteers in `team` and volunteers in `volunteers`, each in sheet order. */
  function TeamOf(text: string): (r: TeamData)
    ensures '\n' !in Trim(text) ==> r == TeamData([], [])
    ensures TeamColumns(HeaderOf(text)).None? ==> r == TeamData([], [])
  {
    var lines := Lines(text);
    if |lines| < 2 then TeamData([], [])
    else
      var headers := HeaderOf(text);
      match TeamColumns(headers)
      case None => TeamData([], [])
      case Some(cols) =>
        var ms := MembersOf(headers, cols, lines[1..]);
        TeamData(Keep(ms, false), Keep(ms, true))
  }

  /** `parseTeamCSV(text)`: one pass over the data lines, each member pushed onto the
      list its job selects. */
  method ParseTeam(text: string) returns (data: TeamData)
    ensures data == TeamOf(text)
    ensures '\n' !in Trim(text) ==> data == TeamData([], [])
    ensures NameColumn !in HeaderOf(text) || JobColumn !in HeaderOf(text) ==> data == TeamData([], [])
    ensures |data.team| + |data.volunteers| < |Lines(text)|
    ensures forall m :: m in data.volunteers ==> m.jobTitle == VolunteerMarker
    ensures forall m :: m in data.team ==> m.jobTitle != VolunteerMarker
    ensures forall m :: m in data.team + data.volunteers ==> Usable(Some(m.name))
  {
    var lines := Lines(text);
    if |lines| < 2 {
      data := TeamData([], []);
    } else {
      var headers := HeaderOf(text);
      var found := TeamColumns(headers);
      if found.None? {
        data := TeamData([], []);
      } else {
        var team, volunteers := SortMembers(headers, found.value, lines[1..]);
        data := TeamData(team, volunteers);
      }
    }
    assert data == TeamOf(text);
    TeamOfFacts(text);
  }

  /** The loop of the parser: every data line that yields a member pushes it onto
      `volunteers` or `team`. */
  method SortMembers(headers: seq<string>, cols: Columns, rows: seq<string>)
      returns (team: seq<TeamMember>, volunteers: seq<TeamMember>)
    requires FitsWidth(cols, |headers|)
    ensures team == Keep(MembersOf(headers, cols, rows), false)
    ensures volunteers == Keep(MembersOf(headers, cols, rows), true)
  {
    team, volunteers := [], [];
    var i := 0;
    while i < |rows|
      invariant 0 <= i <= |rows|
      invariant team == Keep(MembersOf(headers, cols, rows[..i]), false)
      invariant volunteers == Keep(MembersOf(headers, cols, rows[..i]), true)
    {
      var member := MemberOfLine(headers, cols, rows[i]);
      if member.Some? {
        if IsVolunteer(member.value) {
          volunteers := volunteers + [member.value];
        } else {
          team := team + [member.value];
        }
      }
      MembersOneMore(headers, cols, rows, i);
      i := i + 1;
    }
    assert rows[..i] == rows;
  }

  /** Reading one more line extends both lists by what that line yields. */
  lemma MembersOneMore(headers: seq<string>, cols: Columns, rows: seq<string>, i: nat)
    requires FitsWidth(cols, |headers|)
    requires i < |rows|
    ensures var before := MembersOf(headers, cols, rows[..i]);
      var member := MemberOfLine(headers, cols, rows[i]);
      && Keep(MembersOf(headers, cols, rows[..i + 1]), false)
         == Keep(before, false) + (if member.Some? && !IsVolunteer(member.value) then [member.value] else [])
      && Keep(MembersOf(headers, cols, rows[..i + 1]), true)
         == Keep(before, true) + (if member.Some? && IsVolunteer(member.value) then [member.value] else [])
  {
    assert rows[..i + 1] == rows[..i] + [rows[i]];
    FilterMapSnoc(rows[..i], rows[i], MemberReader(headers, cols));
    var before := MembersOf(headers, cols, rows[..i]);
    var member := MemberOfLine(headers, cols, rows[i]);
    if member.Some? {
      KeepSnoc(before, member.value, false);
      KeepSnoc(before, member.value, true);
    } else {
      assert MembersOf(headers, cols, rows[..i + 1]) == before;
    }
  }

  lemma KeepSnoc(ms: seq<TeamMember>, m: TeamMember, volunteer: bool)
    ensures Keep(ms + [m], volunteer) == Keep(ms, volunteer) + (if IsVolunteer(m) == volunteer then [m] else [])
  {
    FilterSnoc(ms, m, OfKind(volunteer));
  }

  /** Keeping distributes over concatenation. */
  lemma KeepAppend(a: seq<TeamMember>, b: seq<TeamMember>, volunteer: bool)
    ensures Keep(a + b, volunteer) == Keep(a, volunteer) + Keep(b, volunteer)
  {
    FilterAppend(a, b, OfKind(volunteer));
  }

  /** Every member has a usable name and a trimmed, non-empty job. */
  predicate WellFormed(m: TeamMember) {
    Usable(Some(m.name)) && m.jobTitle != [] && Trim(m.jobTitle) == m.jobTitle
  }

  /** The default job is a trimmed, non-empty string, and it is not the marker. */
  lemma DefaultJobFacts()
    ensures DefaultJob != [] && Trim(DefaultJob) == DefaultJob
    ensures DefaultJob != VolunteerMarker
  {
    assert !IsSpace(DefaultJob[0]) && !IsSpace(DefaultJob[|DefaultJob| - 1]);
    TrimTrimmed(DefaultJob);
    assert |DefaultJob| != |VolunteerMarker|;
  }

  /** The marker has no ASCII letter, so no lower-casing produces it from anything else. */
  lemma MarkerOnlyFromItself(job: string)
    ensures LowerCase(job) == VolunteerMarker <==> job == VolunteerMarker
  {
    assert forall i :: 0 <= i < |VolunteerMarker| ==> VolunteerMarker[i] as int >= 0x600;
    LowerCaseMatchesOnlyItself(job, VolunteerMarker);
  }

  /** A member read from a row is well formed. */
  lemma MemberOfRowWellFormed(cols: Columns, values: seq<string>)
    requires FitsWidth(cols, |values|)
    requires Trim(values[cols.job]) == values[cols.job]
    requires MemberOfRow(cols, values).Some?
    ensures WellFormed(MemberOfRow(cols, values).value)
  {
    var m := MemberOfRow(cols, values).value;
    assert m.jobTitle == OrElse(Some(values[cols.job]), DefaultJob);
    JobTrimmed(values[cols.job]);
  }

  /** The job of a member, taken from a trimmed cell, is trimmed and non-empty. */
  lemma JobTrimmed(cell: string)
    requires Trim(cell) == cell
    ensures var job := OrElse(Some(cell), DefaultJob); job != [] && Trim(job) == job
  {
    if cell == [] {
      DefaultJobFacts();
    }
  }

  lemma MembersWellFormed(headers: seq<string>, cols: Columns, rows: seq<string>)
    requires FitsWidth(cols, |headers|)
    ensures forall m :: m in MembersOf(headers, cols, rows) ==> WellFormed(m)
  {
    forall m | m in MembersOf(headers, cols, rows) ensures WellFormed(m) {
      var i :| 0 <= i < |rows| && MemberReader(headers, cols)(rows[i]) == Some(m);
      var values := DataRow(|headers|, rows[i]).value;
      assert values == RowValues(rows[i]);
      assert Trim(values[cols.job]) == values[cols.job];
      MemberOfRowWellFormed(cols, values);
    }
  }

  /** For a well-formed member, the volunteer test is plain equality with the marker:
      trimming does nothing and lower-casing cannot turn anything else into it. */
  lemma VolunteerExactly(m: TeamMember)
    requires WellFormed(m)
    ensures IsVolunteer(m) <==> m.jobTitle == VolunteerMarker
  {
    MarkerOnlyFromItself(m.jobTitle);
  }

  /** What the reference result promises: missing columns give nobody; volunteers are
      exactly the members whose job is the marker; every name is usable; there are
      fewer members than lines. */
  lemma TeamOfFacts(text: string)
    ensures var data := TeamOf(text);
      && ('\n' !in Trim(text) ==> data == TeamData([], []))
      && (NameColumn !in HeaderOf(text) || JobColumn !in HeaderOf(text) ==> data == TeamData([], []))
      && |data.team| + |data.volunteers| < |Lines(text)|
      && (forall m :: m in data.volunteers ==> m.jobTitle == VolunteerMarker)
      && (forall m :: m in data.team ==> m.jobTitle != VolunteerMarker)
      && (forall m :: m in data.team + data.volunteers ==> Usable(Some(m.name)))
  {
    var lines := Lines(text);
    var headers := HeaderOf(text);
    if '\n' !in Trim(text) {
      SingleLine(text);
    }
    if |lines| < 2 || TeamColumns(headers).None? {
      assert TeamOf(text) == TeamData([], []);
    } else {
      var cols := TeamColumns(headers).value;
      var ms := MembersOf(headers, cols, lines[1..]);
      assert TeamOf(text) == TeamData(Keep(ms, false), Keep(ms, true));
      MembersWellFormed(headers, cols, lines[1..]);
      SortedByJob(ms);
    }
  }

  /** Of well-formed members, the volunteers' list holds those whose job is the marker,
      the team list the others, and both together as many as there are members. */
  lemma SortedByJob(ms: seq<TeamMember>)
    requires forall m :: m in ms ==> WellFormed(m)
    ensures forall m :: m in Keep(ms, true) ==> m.jobTitle == VolunteerMarker
    ensures forall m :: m in Keep(ms, false) ==> m.jobTitle != VolunteerMarker
    ensures forall m :: m in Keep(ms, false) + Keep(ms, true) ==> Usable(Some(m.name))
    ensures |Keep(ms, false)| + |Keep(ms, true)| == |ms|
  {
    forall m | m in ms ensures IsVolunteer(m) <==> m.jobTitle == VolunteerMarker {
      VolunteerExactly(m);
    }
    KeepMembers(ms, true);
    KeepMembers(ms, false);
    KeepPartition(ms);
  }

  /** The two lists partition the members: together they hold every member exactly as
      often as the sheet does. */
  lemma KeepPartition(ms: seq<TeamMember>)
    ensures multiset(Keep(ms, false)) + multiset(Keep(ms, true)) == multiset(ms)
    ensures |Keep(ms, false)| + |Keep(ms, true)| == |ms|
  {
    FilterPartition(ms, OfKind(false), OfKind(true));
  }

  /** The pushes of the loop never reorder: a sheet split into two blocks of lines gives
      the team and the volunteers of the first block followed by those of the second. */
  lemma MembersInLineOrder(headers: seq<string>, cols: Columns, a: seq<string>, b: seq<string>, volunteer: bool)
    requires FitsWidth(cols, |headers|)
    ensures Keep(MembersOf(headers, cols, a + b), volunteer)
         == Keep(MembersOf(headers, cols, a), volunteer) + Keep(MembersOf(headers, cols, b), volunteer)
  {
    FilterMapAppend(a, b, MemberReader(headers, cols));
    KeepAppend(MembersOf(headers, cols, a), MembersOf(headers, cols, b), volunteer);
  }

  /** A data line yields no member exactly when it is blank, has a different number of
      fields than the header, or its (first) `Name` cell is empty or `##`. */
  lemma MemberOfLineNone(headers: seq<string>, line: string)
    requires TeamColumns(headers).Some?
    ensures MemberOfLine(headers, TeamColumns(headers).value, line).None? <==>
      || Trim(line) == []
      || |SplitFields(line)| != |headers|
      || !Usable(FirstCell(headers, RowValues(line), NameColumn))
  {
  }

  /** The fields of a member in terms of the first column of each name: the name as it
      is; the job as it is unless empty, then "team member"; the picture as it is unless
      missing, empty or `##`, then an avatar drawn from the name. */
  lemma MemberFields(headers: seq<string>, values: seq<string>)
    requires |headers| == |values|
    requires TeamColumns(headers).Some?
    ensures var r := MemberOfRow(TeamColumns(headers).value, values);
      && (r.Some? <==> Usable(FirstCell(headers, values, NameColumn)))
      && (r.Some? ==>
          && Some(r.value.name) == FirstCell(headers, values, NameColumn)
          && r.value.jobTitle == OrElse(FirstCell(headers, values, JobColumn), DefaultJob)
          && r.value.imageUrl == (if Usable(FirstCell(headers, values, ImageColumn))
                                  then FirstCell(headers, values, ImageColumn).value
                                  else AvatarImage(r.value.name)))
  {
  }

  /** A member with an empty job cell is a team member with the default job, never a
      volunteer. */
  lemma BlankJobIsStaff(headers: seq<string>, values: seq<string>)
    requires |headers| == |values|
    requires TeamColumns(headers).Some?
    requires FirstCell(headers, values, JobColumn) == Some([])
    requires MemberOfRow(TeamColumns(headers).value, values).Some?
    ensures var m := MemberOfRow(TeamColumns(headers).value, values).value;
      m.jobTitle == DefaultJob && !IsVolunteer(m)
  {
    MemberFields(headers, values);
    DefaultJobFacts();
    MarkerOnlyFromItself(DefaultJob);
  }

  /** Every line that yields a member puts it in exactly one list: the volunteers'
      when its job is the marker, the team's otherwise. */
  lemma MemberInOneList(headers: seq<string>, cols: Columns, rows: seq<string>, i: nat)
    requires FitsWidth(cols, |headers|)
    requires i < |rows| && MemberOfLine(headers, cols, rows[i]).Some?
    ensures var m := MemberOfLine(headers, cols, rows[i]).value;
      var ms := MembersOf(headers, cols, rows);
      && (m in Keep(ms, true) <==> m.jobTitle == VolunteerMarker)
      && (m in Keep(ms, false) <==> m.jobTitle != VolunteerMarker)
  {
    var m := MemberOfLine(headers, cols, rows[i]).value;
    assert MemberReader(headers, cols)(rows[i]) == Some(m);
    FilterMapComplete(rows, MemberReader(headers, cols), i);
    MembersWellFormed(headers, cols, rows);
    VolunteerExactly(m);
    KeepMembers(MembersOf(headers, cols, rows), true);
    KeepMembers(MembersOf(headers, cols, rows), false);
  }

  /** A line yielding no member can be inserted anywhere among the data lines without
      changing either list. */
  lemma DroppedLineChangesNothing(headers: seq<string>, a: seq<string>, line: string, b: seq<string>)
    requires TeamColumns(headers).Some?
    requires || Trim(line) == []
             || |SplitFields(line)| != |headers|
             || !Usable(FirstCell(headers, RowValues(line), NameColumn))
    ensures var cols := TeamColumns(headers).value;
      MembersOf(headers, cols, a + [line] + b) == MembersOf(headers, cols, a + b)
  {
    MemberOfLineNone(headers, line);
    FilterMapSkip(a, line, b, MemberReader(headers, TeamColumns(headers).value));
  }
}
