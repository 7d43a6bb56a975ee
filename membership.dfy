/** The like / favourite toggle of `like_post` and `favourite_post`: the
    current user leaves the relation if a member, joins it otherwise. */
module Membership {
  import opened Records

  function Toggle(members: set<UserId>, user: UserId): (r: set<UserId>)
    ensures user in r <==> user !in members
    ensures forall other :: other != user ==> (other in r <==> other in members)
    ensures |r| == if user in members then |members| - 1 else |members| + 1
  {
    if user in members then members - {user} else members + {user}
  }

  /** Two toggles by the same user give back the original relation. */
  lemma ToggleTwice(members: set<UserId>, user: UserId)
    ensures Toggle(Toggle(members, user), user) == members
  {
  }
}
