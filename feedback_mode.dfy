/** The feedback modes a session can run, their enum values and their display labels. */
module FeedbackMode {
  import opened PyLib

  /** `FeedbackModeEnum`. */
  datatype FeedbackMode =
    | CurveFeedback
    | HoldingBallFeedback
    | BuildingUpFeedback
    | CatOutOceanFeedback
    | CatClimbTreeFeedback

  /** The enum's value of each member. */
  function Value(m: FeedbackMode): (v: int)
    ensures 1 <= v <= 5
  {
    match m
    case CurveFeedback => 1
    case HoldingBallFeedback => 2
    case BuildingUpFeedback => 3
    case CatOutOceanFeedback => 4
    case CatClimbTreeFeedback => 5
  }

  /** `FeedbackModeEnum(v)`: the member with value `v`, if there is one. */
  function FromValue(v: int): (m: Option<FeedbackMode>)
    ensures m.Some? <==> 1 <= v <= 5
  {
    if v == 1 then Some(CurveFeedback)
    else if v == 2 then Some(HoldingBallFeedback)
    else if v == 3 then Some(BuildingUpFeedback)
    else if v == 4 then Some(CatOutOceanFeedback)
    else if v == 5 then Some(CatClimbTreeFeedback)
    else None
  }

  /** The values are distinct, and each looks its member back up. */
  lemma ValuesIdentifyMembers(m: FeedbackMode, n: FeedbackMode)
    ensures FromValue(Value(m)) == Some(m)
    ensures Value(m) == Value(n) <==> m == n
  {
  }

  /** Every value in 1..5 belongs to exactly the member it looks up. */
  lemma FromValueInverts(v: int)
    requires 1 <= v <= 5
    ensures Value(FromValue(v).value) == v
  {
  }

  // The labels, spelled with code points: 线条反馈, 压力球反馈, 建房子反馈, 猫与潜水艇反馈 and 猫爬树反馈.
  const CurveLabel: string := "\U{7EBF}\U{6761}\U{53CD}\U{9988}"
  const HoldingBallLabel: string := "\U{538B}\U{529B}\U{7403}\U{53CD}\U{9988}"
  const BuildingUpLabel: string := "\U{5EFA}\U{623F}\U{5B50}\U{53CD}\U{9988}"
  const CatOutOceanLabel: string := "\U{732B}\U{4E0E}\U{6F5C}\U{6C34}\U{8247}\U{53CD}\U{9988}"
  const CatClimbTreeLabel: string := "\U{732B}\U{722C}\U{6811}\U{53CD}\U{9988}"

  /** The label of each member. */
  function Label(m: FeedbackMode): string
  {
    match m
    case CurveFeedback => CurveLabel
    case HoldingBallFeedback => HoldingBallLabel
    case BuildingUpFeedback => BuildingUpLabel
    case CatOutOceanFeedback => CatOutOceanLabel
    case CatClimbTreeFeedback => CatClimbTreeLabel
  }

  /** `get_feedback_mode_info(exp)`: the label of a member; anything that is not a member (here
      `None`) falls through the chain and gets `None`. */
  function Info(exp: Option<FeedbackMode>): (r: Option<string>)
    ensures r.None? <==> exp.None?
    ensures exp == Some(CurveFeedback) ==> r == Some(CurveLabel)
    ensures exp == Some(HoldingBallFeedback) ==> r == Some(HoldingBallLabel)
    ensures exp == Some(BuildingUpFeedback) ==> r == Some(BuildingUpLabel)
    ensures exp == Some(CatOutOceanFeedback) ==> r == Some(CatOutOceanLabel)
    ensures exp == Some(CatClimbTreeFeedback) ==> r == Some(CatClimbTreeLabel)
  {
    match exp
    case None => None
    case Some(m) => Some(Label(m))
  }

  /** Different members get different labels, and every label ends in 反馈 ("feedback"). */
  lemma InfoIsInjective(m: FeedbackMode, n: FeedbackMode)
    ensures Info(Some(m)) == Info(Some(n)) <==> m == n
    ensures var l := Info(Some(m)).value; |l| >= 4 && l[|l| - 2..] == "\U{53CD}\U{9988}"
  {
    var l, k := Label(m), Label(n);
    if m != n {
      assert (|l|, l[0]) != (|k|, k[0]);
    }
  }
}
