/**
 * The badges screen's derivations (src/screens/BadgesScreen.tsx): its copy of the rank
 * label, the icon lookup, and the shaping of the badge list into the earned and not-earned
 * sections (category filter, partition, collapse to six).
 */
module BadgesScreen {
  import Js
  import opened Types
  import opened Rank
  import ProfileScreen

  // ---------------------------------------------------------------- rank label

  /** `tiers[tierIndex] || tiers[0]` and `numerals[numeralIndex] || numerals[2]`. */
  function RankLabelOf(points: int): (r: ProfileScreen.RankLabel)
    ensures r.tier == Tiers[RankOf(points).tierIndex]
    ensures r.numeral == Numerals[RankOf(points).numeralIndex]
  {
    var rank := RankOf(points);
    ProfileScreen.RankLabel(Lookup(Tiers, rank.tierIndex, Tiers[0]), Lookup(Numerals, rank.numeralIndex, Numerals[2]))
  }

  /** The two screens show the same rank for every number of points; only their unused fallbacks differ. */
  lemma SameRankAsProfile(points: int)
    ensures RankLabelOf(points) == ProfileScreen.RankLabelOf(points)
  {
  }

  // ---------------------------------------------------------------- icons

  datatype Icon =
    | Star | Flame | Target | TrendingUp | Crown | CheckCircle2 | Trophy | Award
    | Zap | Heart | BookOpen | Clock | Moon | Users | UserCheck | UserPlus

  /** The key each icon is stored under in `iconMap`. */
  function IconName(icon: Icon): string {
    match icon
    case Star => "Star"
    case Flame => "Flame"
    case Target => "Target"
    case TrendingUp => "TrendingUp"
    case Crown => "Crown"
    case CheckCircle2 => "CheckCircle2"
    case Trophy => "Trophy"
    case Award => "Award"
    case Zap => "Zap"
    case Heart => "Heart"
    case BookOpen => "BookOpen"
    case Clock => "Clock"
    case Moon => "Moon"
    case Users => "Users"
    case UserCheck => "UserCheck"
    case UserPlus => "UserPlus"
  }

  const IconMap: map<string, Icon> := map[
    "Star" := Star, "Flame" := Flame, "Target" := Target, "TrendingUp" := TrendingUp,
    "Crown" := Crown, "CheckCircle2" := CheckCircle2, "Trophy" := Trophy, "Award" := Award,
    "Zap" := Zap, "Heart" := Heart, "BookOpen" := BookOpen, "Clock" := Clock,
    "Moon" := Moon, "Users" := Users, "UserCheck" := UserCheck, "UserPlus" := UserPlus]

  /** `getIconComponent(iconName)`: the mapped icon, or the trophy for an unknown name. */
  function IconFor(iconName: string): Icon {
    if iconName in IconMap then IconMap[iconName] else Trophy
  }

  /** Every icon is found under its own name. */
  lemma IconFound(icon: Icon)
    ensures IconFor(IconName(icon)) == icon
  {
    match icon
    case Star =>
    case Flame =>
    case Target =>
    case TrendingUp =>
    case Crown =>
    case CheckCircle2 =>
    case Trophy =>
    case Award =>
    case Zap =>
    case Heart =>
    case BookOpen =>
    case Clock =>
    case Moon =>
    case Users =>
    case UserCheck =>
    case UserPlus =>
  }

  /** Each key of the icon table is the name of the icon stored under it. */
  lemma KeyIsName(name: string)
    ensures name in IconMap ==> name == IconName(IconMap[name])
  {
  }

  /** A string that names no icon gives the trophy. */
  lemma IconFallback(other: string)
    requires forall i: Icon :: other != IconName(i)
    ensures IconFor(other) == Trophy
  {
    KeyIsName(other);
  }

  // ---------------------------------------------------------------- badge list

  /** The category id that shows every badge. */
  const AllCategories: string := "all"

  function InCategory(category: string): Badge -> bool {
    (b: Badge) => b.category == category
  }

  function IsEarned(): Badge -> bool {
    (b: Badge) => b.earned
  }

  function IsNotEarned(): Badge -> bool {
    (b: Badge) => !b.earned
  }

  /**
   * `filteredBadges`: every badge for "all", otherwise exactly the badges of the selected
   * category, in their original order.
   */
  function FilteredBadges(badges: seq<Badge>, selectedCategory: string): (r: seq<Badge>)
    ensures selectedCategory == AllCategories ==> r == badges
    ensures selectedCategory != AllCategories ==> r == Js.Filter(badges, InCategory(selectedCategory))
    ensures selectedCategory != AllCategories ==>
      forall b :: b in r <==> b in badges && b.category == selectedCategory
  {
    if selectedCategory == AllCategories then badges
    else
      var r := Js.Filter(badges, InCategory(selectedCategory));
      Js.FilterSound(badges, InCategory(selectedCategory));
      assert forall b :: b in badges && b.category == selectedCategory ==> b in r by {
        forall b | b in badges && b.category == selectedCategory
          ensures b in r
        {
          Js.FilterComplete(badges, InCategory(selectedCategory), b);
        }
      }
      r
  }

  function EarnedBadges(filteredBadges: seq<Badge>): seq<Badge> {
    Js.Filter(filteredBadges, IsEarned())
  }

  function NotEarnedBadges(filteredBadges: seq<Badge>): seq<Badge> {
    Js.Filter(filteredBadges, IsNotEarned())
  }

  /**
   * The earned and not-earned lists split the filtered list: every badge lands on the side its
   * `earned` flag says, and together they hold each badge as often as the filtered list does.
   */
  lemma EarnedPartition(filteredBadges: seq<Badge>)
    ensures |EarnedBadges(filteredBadges)| + |NotEarnedBadges(filteredBadges)| == |filteredBadges|
    ensures multiset(EarnedBadges(filteredBadges)) + multiset(NotEarnedBadges(filteredBadges))
         == multiset(filteredBadges)
    ensures forall b :: b in EarnedBadges(filteredBadges) <==> b in filteredBadges && b.earned
    ensures forall b :: b in NotEarnedBadges(filteredBadges) <==> b in filteredBadges && !b.earned
  {
    Js.FilterPartition(filteredBadges, IsEarned(), IsNotEarned());
    Js.FilterSound(filteredBadges, IsEarned());
    Js.FilterSound(filteredBadges, IsNotEarned());
    forall b | b in filteredBadges
      ensures b.earned ==> b in EarnedBadges(filteredBadges)
      ensures !b.earned ==> b in NotEarnedBadges(filteredBadges)
    {
      if b.earned {
        Js.FilterComplete(filteredBadges, IsEarned(), b);
      } else {
        Js.FilterComplete(filteredBadges, IsNotEarned(), b);
      }
    }
  }

  /** How many badges a collapsed section shows. */
  const CollapsedCount := 6

  /** `showMore ? list : list.slice(0, 6)`. */
  function Displayed(list: seq<Badge>, showMore: bool): (r: seq<Badge>)
    ensures showMore ==> r == list
    ensures !showMore ==> |r| == (if |list| < CollapsedCount then |list| else CollapsedCount)
    ensures r == list[..|r|]
  {
    if showMore || |list| <= CollapsedCount then list else list[..CollapsedCount]
  }
}
