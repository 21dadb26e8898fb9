/**
 * Per-match record normalisation and scoring (`normalize` in
 * ScoutingProcessor.py): numeric coercion of eight columns, the
 * first-category-wins End Game rule, the endgame points table and the
 * piece / total score formulas.
 */
module Normalizer {
  import opened PyStrings

  /** A raw numeric cell, already classified the way
      `pd.to_numeric(errors="coerce")` sees it: missing, not a number
      (free text, or a comma list such as "3,3"), or an integer. */
  datatype Cell = Absent | NonNumeric | Num(n: int)

  /** A raw End Game cell: a string, or any non-string value (an empty cell
      is read as NaN, a purely numeric column as numbers). */
  datatype EndGameCell = NotText | Text(s: string)

  /** One scouting submission as read from the CSV files. */
  datatype RawRow = RawRow(
    matchNumber: Cell,
    teamNumber: Cell,
    autoNear: Cell,
    autoFar: Cell,
    autoOffTarget: Cell,
    teleNear: Cell,
    teleFar: Cell,
    teleOffTarget: Cell,
    endGame: EndGameCell)

  /** One normalised record: the coerced columns, the untouched End Game
      column, and the four derived columns `End Game (Norm)`,
      `end_game_score`, `piece_score` and `total_score`. */
  datatype Row = Row(
    matchNumber: int,
    teamNumber: int,
    autoNear: int,
    autoFar: int,
    autoOffTarget: int,
    teleNear: int,
    teleFar: int,
    teleOffTarget: int,
    endGame: EndGameCell,
    endGameNorm: string,
    endGameScore: int,
    pieceScore: int,
    totalScore: int)

  /** Points for every piece scored, in either phase and either zone. */
  const SCORE_PER_PIECE: int := 3

  /** Bonus points per endgame category; any other category is worth nothing. */
  const ENDGAME_POINTS: map<string, int> := map[
    "Partially" := 5,
    "Fully" := 10,
    "Double Park Beneficiary" := 10,
    "Double Park Dealer" := 20]

  /** `to_numeric(errors="coerce").fillna(0).astype(int)` on one cell:
      a number is kept, anything missing or unparseable becomes 0. */
  function Coerce(c: Cell): (v: int)
    ensures c.Num? ==> v == c.n
    ensures !c.Num? ==> v == 0
  {
    match c
    case Num(n) => n
    case _ => 0
  }

  /** A part holds no label: nothing is left of it once stripped. */
  predicate Blank(part: string) {
    Strip(part) == ""
  }

  /** Where the first label is: the index of the first part that is not
      blank once stripped, or the number of parts when every part is blank. */
  function FirstLabelAt(parts: seq<string>): (j: nat)
    ensures j <= |parts|
    ensures forall i :: 0 <= i < j ==> Blank(parts[i])
    ensures j < |parts| ==> !Blank(parts[j])
    decreases |parts|
  {
    if |parts| == 0 || !Blank(parts[0]) then 0 else 1 + FirstLabelAt(parts[1..])
  }

  /** `lbl` is one of the parts, stripped. */
  ghost predicate StrippedPartOf(lbl: string, parts: seq<string>) {
    exists i :: 0 <= i < |parts| && lbl == Strip(parts[i])
  }

  /** `[p.strip() for p in parts if p.strip()]`: the stripped, non-blank
      parts, the first of which is the part `FirstLabelAt` points to. */
  function NonBlank(parts: seq<string>): (labels: seq<string>)
    ensures forall k :: 0 <= k < |labels| ==> labels[k] != ""
    ensures forall k :: 0 <= k < |labels| ==> StrippedPartOf(labels[k], parts)
    ensures |labels| <= |parts|
    ensures |labels| == 0 <==> FirstLabelAt(parts) == |parts|
    ensures |labels| > 0 ==> labels[0] == Strip(parts[FirstLabelAt(parts)])
    decreases |parts|
  {
    if |parts| == 0 then []
    else
      var rest := NonBlank(parts[1..]);
      if !Blank(parts[0]) then [Strip(parts[0])] + rest else rest
  }

  /** The inner `endgame_value`: the first non-blank `;`-separated label,
      trimmed, or "" when the cell is not text or holds no label. The
      result never holds a `;` and never starts or ends with whitespace. */
  function EndgameValue(v: EndGameCell): (r: string)
    ensures v.NotText? ==> r == ""
    ensures ';' !in r
    ensures Trimmed(r)
  {
    match v
    case NotText => ""
    case Text(s) =>
      var parts := Split(s, ';');
      var labels := NonBlank(parts);
      var j := FirstLabelAt(parts);
      if |labels| > 0 then
        assert labels[0] == Strip(parts[j]);
        StripKeepsOut(parts[j], ';');
        labels[0]
      else ""
  }

  /** Every part is blank. */
  predicate AllBlank(parts: seq<string>) {
    forall j :: 0 <= j < |parts| ==> Blank(parts[j])
  }

  /** The category is the first label of the text: "" exactly when every
      `;`-separated part is blank, and otherwise the stripped first part
      that is not. */
  lemma EndgameValueIsFirstLabel(s: string)
    ensures EndgameValue(Text(s)) == "" <==> AllBlank(Split(s, ';'))
    ensures EndgameValue(Text(s)) != "" ==>
              EndgameValue(Text(s)) == Strip(Split(s, ';')[FirstLabelAt(Split(s, ';'))])
  {
    var parts := Split(s, ';');
    var j := FirstLabelAt(parts);
    var labels := NonBlank(parts);
    var r := EndgameValue(Text(s));
    assert r == if |labels| > 0 then labels[0] else "";
    if |labels| > 0 {
      assert j < |parts| && !Blank(parts[j]);
      assert !AllBlank(parts);
      assert r == Strip(parts[j]) != "";
    } else {
      assert j == |parts|;
      assert AllBlank(parts);
    }
  }

  /** `ENDGAME_POINTS` looked up with a default of 0: exactly the four
      listed labels score, so the score is always one of 0, 5, 10, 20. */
  function EndgameScore(category: string): (p: int)
    ensures p == 5 <==> category == "Partially"
    ensures p == 10 <==> category == "Fully" || category == "Double Park Beneficiary"
    ensures p == 20 <==> category == "Double Park Dealer"
    ensures p == 0 <==> category !in ENDGAME_POINTS
    ensures p in {0, 5, 10, 20}
  {
    if category in ENDGAME_POINTS then ENDGAME_POINTS[category] else 0
  }

  /** The scoring rule every normalised row satisfies. */
  predicate Scored(row: Row) {
    && row.pieceScore == (row.autoNear + row.autoFar + row.teleNear + row.teleFar) * SCORE_PER_PIECE
    && row.totalScore == row.pieceScore + row.endGameScore
  }

  /** `normalize` applied to one row. */
  function NormalizeRow(raw: RawRow): (row: Row)
    ensures row.matchNumber == Coerce(raw.matchNumber) && row.teamNumber == Coerce(raw.teamNumber)
    ensures row.autoNear == Coerce(raw.autoNear) && row.autoFar == Coerce(raw.autoFar)
    ensures row.teleNear == Coerce(raw.teleNear) && row.teleFar == Coerce(raw.teleFar)
    ensures row.autoOffTarget == Coerce(raw.autoOffTarget) && row.teleOffTarget == Coerce(raw.teleOffTarget)
    ensures row.endGame == raw.endGame
    ensures row.endGameNorm == EndgameValue(raw.endGame)
    ensures row.endGameScore == EndgameScore(row.endGameNorm)
    ensures Scored(row)
  {
    var autoNear := Coerce(raw.autoNear);
    var autoFar := Coerce(raw.autoFar);
    var teleNear := Coerce(raw.teleNear);
    var teleFar := Coerce(raw.teleFar);
    var norm := EndgameValue(raw.endGame);
    var endScore := EndgameScore(norm);
    var pieces := (autoNear + autoFar + teleNear + teleFar) * SCORE_PER_PIECE;
    Row(Coerce(raw.matchNumber), Coerce(raw.teamNumber),
        autoNear, autoFar, Coerce(raw.autoOffTarget),
        teleNear, teleFar, Coerce(raw.teleOffTarget),
        raw.endGame, norm, endScore, pieces, pieces + endScore)
  }

  /** `normalize`: one output row per input row, in the same order; rows
      whose team or match number is unusable are kept with 0 there. */
  function Normalize(raws: seq<RawRow>): (rows: seq<Row>)
    ensures |rows| == |raws|
    ensures forall i :: 0 <= i < |raws| ==> rows[i] == NormalizeRow(raws[i])
    ensures forall i :: 0 <= i < |raws| && !raws[i].teamNumber.Num? ==> rows[i].teamNumber == 0
    ensures forall i :: 0 <= i < |raws| && !raws[i].matchNumber.Num? ==> rows[i].matchNumber == 0
    ensures forall i :: 0 <= i < |rows| ==> Scored(rows[i])
  {
    seq(|raws|, i requires 0 <= i < |raws| => NormalizeRow(raws[i]))
  }

  /** Normalising the concatenation of several files' rows is the
      concatenation of their normalisations: no row is dropped, merged or
      moved. */
  lemma NormalizeAppend(a: seq<RawRow>, b: seq<RawRow>)
    ensures Normalize(a + b) == Normalize(a) + Normalize(b)
  {
  }

  /** The Off Target columns are coerced but never scored: two rows that
      differ only there get the same piece and total scores. */
  lemma OffTargetIgnored(a: RawRow, b: RawRow)
    requires a.(autoOffTarget := b.autoOffTarget, teleOffTarget := b.teleOffTarget) == b
    ensures NormalizeRow(a).pieceScore == NormalizeRow(b).pieceScore
    ensures NormalizeRow(a).totalScore == NormalizeRow(b).totalScore
  {
  }

  /** Normalising the End Game category again changes nothing. */
  lemma {:induction false} EndgameValueIdempotent(v: EndGameCell)
    ensures EndgameValue(Text(EndgameValue(v))) == EndgameValue(v)
  {
    var r := EndgameValue(v);
    if r == "" {
      assert Split(r, ';') == [""];
      assert Strip("") == "";
    } else {
      SplitWithoutSep(r, ';');
      StripTrimmed(r);
    }
  }

  /** First category wins: when the text before the first `;` holds a category,
      that category is the category, whatever follows. */
  lemma FirstLabelWins(first: string, rest: string)
    requires ';' !in first
    requires Strip(first) != ""
    ensures EndgameValue(Text(first + ";" + rest)) == Strip(first)
  {
    SplitFirst(first, rest, ';');
    assert first + ";" + rest == first + [';'] + rest;
  }

  /** A multi-select "Fully; Partially" scores as Fully. */
  lemma FullyThenPartially()
    ensures EndgameScore(EndgameValue(Text("Fully; Partially"))) == 10
  {
    assert "Fully; Partially" == "Fully" + ";" + " Partially";
    StripTrimmed("Fully");
    FirstLabelWins("Fully", " Partially");
  }

  /** A single category written without padding is its own category. */
  lemma SingleLabel(s: string)
    requires ';' !in s && Trimmed(s) && s != ""
    ensures EndgameValue(Text(s)) == s
  {
    SplitWithoutSep(s, ';');
    StripTrimmed(s);
  }

  /** A submission whose auto-near cell is the comma list "3,3": the cell is
      not a number, so it counts 0, and the row scores
      (0 + 0 + 3 + 0) * 3 + 10 = 19. */
  lemma CommaListRowExample()
    ensures var r := NormalizeRow(RawRow(Num(1), Num(100), NonNumeric, Num(0), Absent, Num(3), Num(0), Absent, Text("Fully")));
            r.matchNumber == 1 && r.teamNumber == 100 && r.autoNear == 0 && r.totalScore == 19
  {
    SingleLabel("Fully");
  }

  /** A submission of plain counts: (3 + 3 + 0 + 0) * 3 + 5 = 23. */
  lemma PlainRowExample()
    ensures var r := NormalizeRow(RawRow(Num(2), Num(100), Num(3), Num(3), Absent, Num(0), Num(0), Absent, Text("Partially")));
            r.matchNumber == 2 && r.teamNumber == 100 && r.totalScore == 23
  {
    SingleLabel("Partially");
  }
}
