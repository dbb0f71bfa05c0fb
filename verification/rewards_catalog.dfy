/**
 * The child's rewards screen: which cards can be tapped, and what a tap on an
 * affordable card does. `points` is the balance the screen was opened with.
 */
module RewardsCatalog {
  import opened Options
  import opened Model
  import Ledger

  /** `canAfford`: the shown balance covers the cost. */
  predicate CanAfford(points: int, reward: Reward) {
    points >= reward.cost
  }

  /** What the screen shows after a redeem attempt. */
  datatype RedeemOutcome =
    | NothingHappens
    | NotEnoughStars(missing: int)
    | Celebrate(reward: Reward)

  datatype Redeem = Redeem(store: Store, outcome: RedeemOutcome)

  /**
   * `handleRedeem`: with a shown balance below the cost, only the "not enough
   * stars" alert; otherwise the ledger's redemption is attempted, and the
   * confetti (followed by `onRedemption`) appears only when it succeeded.
   */
  function HandleRedeem(s: Store, childId: string, points: int, reward: Reward, id: string, now: int): (r: Redeem)
    ensures points < reward.cost ==> r == Redeem(s, NotEnoughStars(reward.cost - points))
    ensures r.outcome.NotEnoughStars? ==> r.outcome.missing > 0
    ensures r.outcome.Celebrate? <==>
              points >= reward.cost && Ledger.RedeemReward(s, childId, reward.id, id, now).result.Some?
    ensures r.outcome.Celebrate? ==> r.outcome.reward == reward && |r.store.redemptions| == |s.redemptions| + 1
    ensures !r.outcome.Celebrate? ==> r.store == s
  {
    if points < reward.cost then Redeem(s, NotEnoughStars(reward.cost - points))
    else
      var attempt := Ledger.RedeemReward(s, childId, reward.id, id, now);
      if attempt.result.Some? then Redeem(attempt.store, Celebrate(reward))
      else Redeem(s, NothingHappens)
  }

  /** A click on a reward card: cards the child cannot afford do nothing at all. */
  function CardClick(s: Store, childId: string, points: int, reward: Reward, id: string, now: int): (r: Redeem)
    ensures !CanAfford(points, reward) ==> r == Redeem(s, NothingHappens)
    ensures !r.outcome.NotEnoughStars?
    ensures r.outcome.Celebrate? ==> CanAfford(points, reward)
  {
    if CanAfford(points, reward) then HandleRedeem(s, childId, points, reward, id, now)
    else Redeem(s, NothingHappens)
  }

  /**
   * When the screen's balance is the ledger's current balance and the card is
   * the catalogue's entry for its id, a click celebrates exactly when the card
   * is affordable: the screen's guard and the ledger's guard agree.
   */
  lemma FreshClickCelebratesIffAffordable(s: Store, childId: string, reward: Reward, id: string, now: int)
    requires FindReward(s.rewards, reward.id) == Some(reward)
    ensures var points := Ledger.CalculatePoints(childId, s.completions, s.tasks);
            CardClick(s, childId, points, reward, id, now).outcome.Celebrate? <==> CanAfford(points, reward)
  {
  }
}
