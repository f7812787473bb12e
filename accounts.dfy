/** The user rows shared by the project pipeline and the payment webhook: a credit balance and a creation counter. */
module Accounts {

  /** A user identifier as the session layer hands it over; the empty string stands for a missing one. */
  type UserId = string

  datatype User = User(credits: int, totalCreation: nat)

  /** `user.update({ where: { id }, data: { credits: { increment: amount } } })`: the named user's balance
    * moves by `amount` (negative for a debit) and nothing else changes; when there is no such user the
    * store refuses the update and the users are left as they were. */
  function AddCredits(users: map<UserId, User>, id: UserId, amount: int): (r: map<UserId, User>)
    ensures r.Keys == users.Keys
    ensures id in users ==> r[id].credits == users[id].credits + amount
    ensures id in users ==> r[id].totalCreation == users[id].totalCreation
    ensures forall u :: u in users && u != id ==> r[u] == users[u]
  {
    if id in users then users[id := users[id].(credits := users[id].credits + amount)] else users
  }
}
