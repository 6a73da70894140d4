/**
 * The workout builder of the GymCoach web service: the table from muscle groups to
 * catalog body-part labels, and the assembly of a single-group workout from the
 * exercise catalog.
 */
module App {
  import opened Outcomes
  import opened PyStr
  import opened PyRandom

  /** One row of the `exercises` table; a column holding NULL is `None`. */
  datatype ExerciseRow = ExerciseRow(
    title: Option<string>,
    bodyPart: Option<string>,
    exerciseType: Option<string>,
    equipment: Option<string>,
    level: Option<string>)

  /** One numbered entry of an assembled workout. */
  datatype WorkoutExercise = WorkoutExercise(
    order: int,
    title: Option<string>,
    bodyPart: Option<string>,
    exerciseType: Option<string>,
    equipment: Option<string>,
    level: Option<string>,
    sets: int,
    reps: string)

  /** The assembled workout: the display name of its group and its entries. */
  datatype Workout = Workout(group: string, exercises: seq<WorkoutExercise>)

  /** Every entry prescribes three sets of eight to twelve repetitions. */
  const Sets := 3
  const Reps := "8\U{2013}12"

  /** Logical group names and the catalog body-part labels each one covers. */
  const GroupBodyPartMap: map<string, seq<string>> := map[
    "chest" := ["chest"],
    "back" := ["back"],
    "biceps" := ["biceps"],
    "triceps" := ["triceps"],
    "legs" := ["legs", "upper legs", "lower legs"],
    "shoulders" := ["shoulders", "shoulder"],
    "core" := ["abdominals", "abs", "core"]
  ]

  /** The keys of the group table in their declared order, each once. */
  function AvailableGroups(): (keys: seq<string>)
    ensures forall k :: k in keys <==> k in GroupBodyPartMap
    ensures forall i, j :: 0 <= i < j < |keys| ==> keys[i] != keys[j]
  {
    ["chest", "back", "biceps", "triceps", "legs", "shoulders", "core"]
  }

  /** Every key of the table is a lower-case word and every label is lower-case text. */
  lemma GroupTableIsLowerCase()
    ensures forall key :: key in GroupBodyPartMap ==> IsLowerWord(key)
    ensures forall key, bodyPart :: key in GroupBodyPartMap && bodyPart in GroupBodyPartMap[key] ==> IsLowerText(bodyPart)
  {
  }

  /** Every label of the table starts and ends with a lower-case letter. */
  lemma GroupLabelsAreTrimmed()
    ensures forall key, bodyPart :: key in GroupBodyPartMap && bodyPart in GroupBodyPartMap[key] ==>
      bodyPart != [] && 'a' <= bodyPart[0] <= 'z' && 'a' <= bodyPart[|bodyPart| - 1] <= 'z'
  {
  }

  /** How a requested group name is compared with the table keys: stripped, then lower-cased. */
  function NormalizeGroupName(name: string): (groupKey: string)
    ensures |groupKey| <= |name|
    ensures groupKey != [] ==> !IsSpace(groupKey[0]) && !IsSpace(groupKey[|groupKey| - 1])
    ensures forall i :: 0 <= i < |groupKey| ==> !('A' <= groupKey[i] <= 'Z')
  {
    Lower(Strip(name))
  }

  /** A normalised name normalises to itself. */
  lemma NormalizeGroupNameIdempotent(name: string)
    ensures NormalizeGroupName(NormalizeGroupName(name)) == NormalizeGroupName(name)
  {
    LowerOfStrippedIsStripped(name);
    LowerIdempotent(Strip(name));
  }

  /** The request names a group of the table: a non-empty name whose normal form is a key. */
  predicate NamesKnownGroup(groupName: Option<string>) {
    groupName.Some? && groupName.value != "" && NormalizeGroupName(groupName.value) in GroupBodyPartMap
  }

  /**
   * The group key the workout is built for. A missing or empty name, or one that does
   * not normalise to a key, falls back to `random.choice` over the keys, which picked
   * position `choice`.
   */
  function ResolveGroup(groupName: Option<string>, choice: nat): (key: string)
    requires choice < |AvailableGroups()|
    ensures key in GroupBodyPartMap
    ensures NamesKnownGroup(groupName) ==> key == NormalizeGroupName(groupName.value)
    ensures !NamesKnownGroup(groupName) ==> key == AvailableGroups()[choice]
  {
    match groupName
    case Some(name) =>
      if name != "" then
        var groupKey := NormalizeGroupName(name);
        if groupKey in GroupBodyPartMap then groupKey else Choice(AvailableGroups(), choice)
      else Choice(AvailableGroups(), choice)
    case None => Choice(AvailableGroups(), choice)
  }

  /** Every group can be requested by its own key, whatever the random source would pick. */
  lemma GroupSelectableByKey(key: string, choice: nat)
    requires key in GroupBodyPartMap
    requires choice < |AvailableGroups()|
    ensures ResolveGroup(Some(key), choice) == key
  {
    GroupTableIsLowerCase();
    assert key[0] in key;
    assert key[|key| - 1] in key;
    StripUnchanged(key);
    LowerUnchanged(key);
  }

  /**
   * Case and surrounding whitespace do not matter: any text that lower-cases to a key,
   * padded with any whitespace on either side, selects that key whatever the random pick.
   */
  lemma PaddedMixedCaseNameSelectsGroup(pre: string, u: string, post: string, key: string, choice: nat)
    requires key in GroupBodyPartMap
    requires choice < |AvailableGroups()|
    requires forall c :: c in pre ==> IsSpace(c)
    requires forall c :: c in post ==> IsSpace(c)
    requires Lower(u) == key
    ensures ResolveGroup(Some(pre + u + post), choice) == key
  {
    GroupTableIsLowerCase();
    assert key[0] in key;
    assert key[|key| - 1] in key;
    LowerIdempotent(u);
    assert !IsSpace(u[0]) && !IsSpace(u[|u| - 1]);
    StripPadded(pre, u, post);
    assert pre + u + post != "";
    assert NormalizeGroupName(pre + u + post) == key;
  }

  /** For instance, a request for " Chest\n" selects "chest". */
  lemma PaddedChestSelectsChest(choice: nat)
    requires choice < |AvailableGroups()|
    ensures ResolveGroup(Some(" Chest\n"), choice) == "chest"
  {
    var lowered := Lower("Chest");
    assert lowered[0] == 'c';
    assert lowered == "chest";
    assert " Chest\n" == " " + "Chest" + "\n";
    PaddedMixedCaseNameSelectsGroup(" ", "Chest", "\n", "chest", choice);
  }

  /** The group name a workout displays, passed back as the requested name, selects the same group. */
  lemma DisplayedGroupSelectsSameGroup(key: string, choice: nat)
    requires key in GroupBodyPartMap
    requires choice < |AvailableGroups()|
    ensures ResolveGroup(Some(Capitalize(key)), choice) == key
  {
    GroupTableIsLowerCase();
    CapitalizeLowerWord(key);
  }

  /** Each label lower-cased, in order. */
  function LowerAll(labels: seq<string>): (lowered: seq<string>)
    ensures |lowered| == |labels|
    ensures forall i :: 0 <= i < |labels| ==> lowered[i] == Lower(labels[i])
  {
    if labels == [] then [] else [Lower(labels[0])] + LowerAll(labels[1..])
  }

  /** Lower-casing labels that are lower-case already changes nothing. */
  lemma {:induction false} LowerAllUnchanged(labels: seq<string>)
    requires forall bodyPart :: bodyPart in labels ==> IsLowerText(bodyPart)
    ensures LowerAll(labels) == labels
  {
    if labels != [] {
      assert labels[0] in labels;
      LowerUnchanged(labels[0]);
      LowerAllUnchanged(labels[1..]);
    }
  }

  /** The lower-cased labels of a group: the table's own labels, since they are lower-case already. */
  function TargetBodyParts(key: string): (targets: seq<string>)
    requires key in GroupBodyPartMap
    ensures targets == GroupBodyPartMap[key]
  {
    GroupTableIsLowerCase();
    LowerAllUnchanged(GroupBodyPartMap[key]);
    LowerAll(GroupBodyPartMap[key])
  }

  /** A row's body part is set, non-empty, and once stripped and lower-cased one of the targets. */
  predicate IsTargeted(bodyPart: Option<string>, targets: seq<string>) {
    bodyPart.Some? && bodyPart.value != "" && Lower(Strip(bodyPart.value)) in targets
  }

  /**
   * A body part is targeted whatever its case and surrounding whitespace: any text that
   * lower-cases to one of a group's labels, padded with any whitespace, is targeted. A
   * missing or empty body part never is.
   */
  lemma TargetedIgnoresCaseAndPadding(pre: string, u: string, post: string, key: string)
    requires key in GroupBodyPartMap
    requires forall c :: c in pre ==> IsSpace(c)
    requires forall c :: c in post ==> IsSpace(c)
    requires Lower(u) in TargetBodyParts(key)
    ensures IsTargeted(Some(pre + u + post), TargetBodyParts(key))
    ensures !IsTargeted(None, TargetBodyParts(key)) && !IsTargeted(Some(""), TargetBodyParts(key))
  {
    GroupTableIsLowerCase();
    GroupLabelsAreTrimmed();
    var bodyPart := Lower(u);
    assert bodyPart in GroupBodyPartMap[key];
    assert !IsSpace(Lower(u)[0]) && !IsSpace(Lower(u)[|u| - 1]);
    assert !IsSpace(u[0]) && !IsSpace(u[|u| - 1]);
    StripPadded(pre, u, post);
  }

  /** The rows whose body part is targeted, in catalog order. */
  function MatchingRows(rows: seq<ExerciseRow>, targets: seq<string>): (matching: seq<ExerciseRow>)
    ensures |matching| <= |rows|
    ensures forall row :: row in matching ==> row in rows && IsTargeted(row.bodyPart, targets)
  {
    if rows == [] then []
    else
      var last := rows[|rows| - 1];
      var earlier := MatchingRows(rows[..|rows| - 1], targets);
      if IsTargeted(last.bodyPart, targets) then earlier + [last] else earlier
  }

  /** Filtering a concatenation filters each part. */
  lemma {:induction false} MatchingRowsOfConcat(a: seq<ExerciseRow>, b: seq<ExerciseRow>, targets: seq<string>)
    ensures MatchingRows(a + b, targets) == MatchingRows(a, targets) + MatchingRows(b, targets)
    decreases |b|
  {
    if b == [] {
      assert a + b == a;
    } else {
      var n := |b| - 1;
      assert (a + b)[..|a + b| - 1] == a + b[..n];
      MatchingRowsOfConcat(a, b[..n], targets);
    }
  }

  /**
   * Row `j` of the catalog is kept exactly when it is targeted, and then between the
   * matches before it and the matches after it: no targeted row is dropped and the
   * catalog order is kept.
   */
  lemma MatchingRowsSplitAt(rows: seq<ExerciseRow>, targets: seq<string>, j: nat)
    requires j < |rows|
    ensures MatchingRows(rows, targets) ==
      MatchingRows(rows[..j], targets)
      + (if IsTargeted(rows[j].bodyPart, targets) then [rows[j]] else [])
      + MatchingRows(rows[j + 1..], targets)
  {
    assert rows == rows[..j] + [rows[j]] + rows[j + 1..];
    MatchingRowsOfConcat(rows[..j] + [rows[j]], rows[j + 1..], targets);
    MatchingRowsOfConcat(rows[..j], [rows[j]], targets);
    assert [rows[j]][..0] == [];
  }

  /** No row is kept exactly when no row is targeted. */
  lemma {:induction false} NoMatchingRows(rows: seq<ExerciseRow>, targets: seq<string>)
    ensures MatchingRows(rows, targets) == [] <==>
      forall j :: 0 <= j < |rows| ==> !IsTargeted(rows[j].bodyPart, targets)
  {
    if rows != [] {
      var n := |rows| - 1;
      NoMatchingRows(rows[..n], targets);
      assert forall j :: 0 <= j < n ==> rows[..n][j] == rows[j];
      if MatchingRows(rows, targets) != [] {
        var row := MatchingRows(rows, targets)[0];
        assert row in MatchingRows(rows, targets);
        var j :| 0 <= j < |rows| && rows[j] == row;
        assert IsTargeted(rows[j].bodyPart, targets);
      }
    }
  }

  /** The filtering loop: keep, in order, every row whose body part is targeted. */
  method FilterCandidates(allExercises: seq<ExerciseRow>, targets: seq<string>) returns (candidates: seq<ExerciseRow>)
    ensures candidates == MatchingRows(allExercises, targets)
  {
    candidates := [];
    var i := 0;
    while i < |allExercises|
      invariant 0 <= i <= |allExercises|
      invariant candidates == MatchingRows(allExercises[..i], targets)
    {
      var ex := allExercises[i];
      assert allExercises[..i + 1][..i] == allExercises[..i];
      match ex.bodyPart {
        case None =>
        case Some(bp) =>
          if bp != "" && Lower(Strip(bp)) in targets {
            candidates := candidates + [ex];
          }
      }
      i := i + 1;
    }
    assert allExercises[..i] == allExercises;
  }

  /**
   * The rows to sample from: the matching rows, or the whole catalog when none match.
   * With no targeted row the candidates are the whole catalog; with one they are the
   * targeted rows and nothing else. Either way they are empty only for an empty catalog.
   */
  function Candidates(allExercises: seq<ExerciseRow>, targets: seq<string>): (candidates: seq<ExerciseRow>)
    ensures (forall j :: 0 <= j < |allExercises| ==> !IsTargeted(allExercises[j].bodyPart, targets)) ==>
      candidates == allExercises
    ensures (exists j :: 0 <= j < |allExercises| && IsTargeted(allExercises[j].bodyPart, targets)) ==>
      candidates == MatchingRows(allExercises, targets) &&
      forall row :: row in candidates ==> IsTargeted(row.bodyPart, targets)
    ensures candidates == [] <==> allExercises == []
  {
    NoMatchingRows(allExercises, targets);
    var matching := MatchingRows(allExercises, targets);
    if matching == [] then allExercises else matching
  }

  function Min(a: int, b: int): int {
    if a <= b then a else b
  }

  /** The random outcome `draw` is usable by `random.sample` whenever the builder calls it. */
  predicate DrawFits(draw: seq<nat>, size: int, candidateCount: nat) {
    0 <= size < candidateCount ==> IsDraw(draw, size, candidateCount)
  }

  /**
   * The rows the workout is made of: all candidates, in order, when there are at most
   * `size` of them; otherwise `random.sample`, which raises for a negative `size`.
   */
  function ChooseUpTo(candidates: seq<ExerciseRow>, size: int, draw: seq<nat>): (chosen: Result<seq<ExerciseRow>, SampleError>)
    requires DrawFits(draw, size, |candidates|)
    ensures chosen.Err? <==> size < 0
    ensures chosen.Ok? ==> |chosen.value| == Min(size, |candidates|)
    ensures |candidates| <= size ==> chosen == Ok(candidates)
    ensures chosen.Ok? && size < |candidates| ==>
      forall i :: 0 <= i < |chosen.value| ==> chosen.value[i] == candidates[draw[i]]
    ensures chosen.Ok? ==> multiset(chosen.value) <= multiset(candidates)
  {
    if |candidates| <= size then Ok(candidates)
    else
      SampleDrawsWithoutReplacement(candidates, size, draw);
      Sample(candidates, size, draw)
  }

  /** `entry` is the `order`-th entry of a workout and copies the descriptive columns of `row`. */
  predicate Describes(entry: WorkoutExercise, order: int, row: ExerciseRow) {
    && entry.order == order
    && entry.title == row.title
    && entry.bodyPart == row.bodyPart
    && entry.exerciseType == row.exerciseType
    && entry.equipment == row.equipment
    && entry.level == row.level
    && entry.sets == Sets
    && entry.reps == Reps
  }

  /**
   * Each numbered row has exactly one entry describing it: the one that copies the row's
   * columns and adds the order and the fixed sets and reps.
   */
  lemma DescribesDeterminesEntry(entry: WorkoutExercise, order: int, row: ExerciseRow)
    ensures Describes(WorkoutExercise(order, row.title, row.bodyPart, row.exerciseType,
                                      row.equipment, row.level, Sets, Reps), order, row)
    ensures Describes(entry, order, row) <==>
      entry == WorkoutExercise(order, row.title, row.bodyPart, row.exerciseType,
                               row.equipment, row.level, Sets, Reps)
  {
  }

  /** The numbering loop: entry i (from 1) describes the i-th chosen row. */
  method NumberExercises(chosen: seq<ExerciseRow>) returns (workoutExercises: seq<WorkoutExercise>)
    ensures |workoutExercises| == |chosen|
    ensures forall i :: 0 <= i < |chosen| ==> Describes(workoutExercises[i], i + 1, chosen[i])
  {
    workoutExercises := [];
    var i := 0;
    while i < |chosen|
      invariant 0 <= i <= |chosen|
      invariant |workoutExercises| == i
      invariant forall j :: 0 <= j < i ==> Describes(workoutExercises[j], j + 1, chosen[j])
    {
      var ex := chosen[i];
      workoutExercises := workoutExercises + [WorkoutExercise(
        i + 1, ex.title, ex.bodyPart, ex.exerciseType, ex.equipment, ex.level, Sets, Reps)];
      i := i + 1;
    }
  }

  /**
   * Build a workout for a single muscle group from the catalog `allExercises`.
   * `groupChoice` is the position `random.choice` would pick among the group keys and
   * `draw` the positions `random.sample` would draw from the candidates.
   */
  method BuildSingleGroupWorkout(
    allExercises: seq<ExerciseRow>, groupName: Option<string>, size: int, groupChoice: nat, draw: seq<nat>)
    returns (r: Result<Workout, SampleError>)
    requires groupChoice < |AvailableGroups()|
    requires DrawFits(draw, size, |Candidates(allExercises, TargetBodyParts(ResolveGroup(groupName, groupChoice)))|)
    ensures r.Err? <==> size < 0
    ensures r.Ok? ==>
      var key := ResolveGroup(groupName, groupChoice);
      var candidates := Candidates(allExercises, TargetBodyParts(key));
      var exercises := r.value.exercises;
      && r.value.group == Capitalize(key)
      && |exercises| == Min(size, |candidates|)
      && forall i :: 0 <= i < |exercises| ==>
           Describes(exercises[i], i + 1, if |candidates| <= size then candidates[i] else candidates[draw[i]])
    ensures r.Ok? && (exists j :: 0 <= j < |allExercises| &&
                        IsTargeted(allExercises[j].bodyPart, TargetBodyParts(ResolveGroup(groupName, groupChoice)))) ==>
      forall i :: 0 <= i < |r.value.exercises| ==>
        IsTargeted(r.value.exercises[i].bodyPart, TargetBodyParts(ResolveGroup(groupName, groupChoice)))
  {
    var groupKey := ResolveGroup(groupName, groupChoice);
    var targetBodyParts := TargetBodyParts(groupKey);

    var candidates := FilterCandidates(allExercises, targetBodyParts);
    if candidates == [] {
      candidates := allExercises;
    }
    assert candidates == Candidates(allExercises, targetBodyParts);

    var chosen := ChooseUpTo(candidates, size, draw);
    if chosen.Err? {
      return Err(chosen.error);
    }
    var workoutExercises := NumberExercises(chosen.value);
    forall i | 0 <= i < |workoutExercises|
      ensures chosen.value[i] in candidates
    {
    }
    r := Ok(Workout(Capitalize(groupKey), workoutExercises));
  }
}
