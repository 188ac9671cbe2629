/** The family members and activity types both stores start from when
    nothing is stored yet. */
module Defaults {
  import opened StoreOps

  /** Three children, two parents and the whole family, with distinct ids. */
  function DefaultMembers(): (r: seq<Member>)
    ensures |r| == 6
    ensures forall i, j :: 0 <= i < j < |r| ==> r[i].id != r[j].id
  {
    [ Member("rut", "Rut", "#ef4444", "child", "👧"),
      Member("pim", "Pim", "#3b82f6", "child", "👦"),
      Member("siv", "Siv", "#10b981", "child", "👧"),
      Member("parent1", "Mamma", "#8b5cf6", "adult", "👩"),
      Member("parent2", "Pappa", "#f59e0b", "adult", "👨"),
      Member("family", "Hela familjen", "#ec4899", "group", "👨‍👩‍👧‍👦") ]
  }

  /** An icon where the list carries icons, the empty icon otherwise. */
  function Icon(withIcons: bool, s: string): (r: string)
    requires s != ""
    ensures r == "" <==> !withIcons
  {
    if withIcons then s else ""
  }

  /** Fifteen activity types with distinct ids; the older store's list
      carries no icons, written here as empty icons. */
  function DefaultTypes(withIcons: bool): (r: seq<ActivityType>)
    ensures |r| == 15
    ensures forall i, j :: 0 <= i < j < |r| ==> r[i].id != r[j].id
    ensures forall i :: 0 <= i < |r| ==> (r[i].icon == "" <==> !withIcons)
  {
    [ ActivityType("school", "Skola", Icon(withIcons, "🎒"), "#3b82f6"),
      ActivityType("preschool", "Förskola", Icon(withIcons, "🧸"), "#8b5cf6"),
      ActivityType("afterschool", "Fritids", Icon(withIcons, "🎨"), "#f59e0b"),
      ActivityType("sport", "Sport", Icon(withIcons, "⚽"), "#10b981"),
      ActivityType("music", "Musik", Icon(withIcons, "🎵"), "#ec4899"),
      ActivityType("doctor", "Läkarbesök", Icon(withIcons, "🏥"), "#ef4444"),
      ActivityType("dentist", "Tandläkare", Icon(withIcons, "🦷"), "#06b6d4"),
      ActivityType("party", "Kalas", Icon(withIcons, "🎂"), "#f97316"),
      ActivityType("homework", "Läxor", Icon(withIcons, "📚"), "#6366f1"),
      ActivityType("meal", "Måltid", Icon(withIcons, "🍽️"), "#84cc16"),
      ActivityType("meeting", "Möte", Icon(withIcons, "💼"), "#64748b"),
      ActivityType("travel", "Resa", Icon(withIcons, "🚗"), "#0ea5e9"),
      ActivityType("shopping", "Handla", Icon(withIcons, "🛒"), "#fb923c"),
      ActivityType("cleaning", "Städning", Icon(withIcons, "🧹"), "#a855f7"),
      ActivityType("other", "Annat", Icon(withIcons, "📌"), "#94a3b8") ]
  }
}
