/**
 * Walk-throughs of the credit pipeline on a fresh store holding one user: a first generation that
 * succeeds, a revision refused for lack of credits, and a revision whose code generation fails.
 */
module Scenarios {
  import opened Wrappers
  import opened Accounts
  import opened ProjectPipeline

  /** A user with exactly one attempt's credits creates a project whose generation succeeds: the
    * balance drops to 0 at once and stays there; the project starts without code and ends on the
    * initial version. */
  method FirstGenerationScenario(model: Model, user: UserId, prompt: string)
    returns (balanceAfterCreate: int, codeBefore: Option<string>, balanceAfterRun: int, log: seq<Version>, codeAfter: Option<string>)
    requires user != "" && prompt != ""
    requires InitialGeneration(model, prompt).Some?
    ensures balanceAfterCreate == 0 && balanceAfterRun == 0
    ensures codeBefore == None
    ensures |log| == 1 && log[0].description == InitialDescription
    ensures codeAfter == Some(log[0].code) && codeAfter == InitialGeneration(model, prompt)
  {
    var store := new Store(map[user := User(GenerationCost, 0)]);
    var r := store.CreateUserProject(user, Str(prompt));
    assert r.Success?;
    var pid := r.body;
    balanceAfterCreate := store.users[user].credits;
    codeBefore := store.projects[pid].currentCode;
    store.ProcessProjectInBackground(pid, prompt, user, model);
    balanceAfterRun := store.users[user].credits;
    log := store.versions;
    codeAfter := store.projects[pid].currentCode;
  }

  /** A fresh store in which `user`, starting with `credits`, has just created one project from
    * `prompt`: the project is the user's, has no code yet, and one attempt has been debited. */
  method StoreWithProject(user: UserId, prompt: string, credits: int) returns (store: Store, pid: ProjectId)
    requires user != "" && prompt != "" && credits >= GenerationCost
    ensures fresh(store) && store.Valid()
    ensures store.users == map[user := User(credits - GenerationCost, 1)]
    ensures Owns(store.projects, pid, user) && store.projects[pid].currentCode == None
    ensures |store.conversations| == 1
  {
    store := new Store(map[user := User(credits, 0)]);
    var r := store.CreateUserProject(user, Str(prompt));
    assert r.Success?;
    pid := r.body;
  }

  /** A fresh store in which `user`, starting with `credits`, has a project whose first generation
    * succeeded: the attempt is paid for and the project has code. */
  method StoreWithGeneratedProject(model: Model, user: UserId, prompt: string, credits: int) returns (store: Store, pid: ProjectId)
    requires user != "" && prompt != "" && credits >= GenerationCost
    requires InitialGeneration(model, prompt).Some?
    ensures fresh(store) && store.Valid()
    ensures store.users == map[user := User(credits - GenerationCost, 1)]
    ensures Owns(store.projects, pid, user) && store.projects[pid].currentCode.Some?
  {
    store, pid := StoreWithProject(user, prompt, credits);
    store.ProcessProjectInBackground(pid, prompt, user, model);
  }

  /** A user left with 3 credits asks for a revision: it is refused with 403, and neither the
    * balance nor the conversation trail changes. */
  method PoorRevisionScenario(user: UserId, prompt: string, change: string)
    returns (status: nat, balance: int, trailBefore: nat, trailAfter: nat)
    requires user != "" && prompt != "" && !Text.IsBlank(change)
    ensures status == InsufficientCredits
    ensures balance == 3
    ensures trailAfter == trailBefore
  {
    var store, pid := StoreWithProject(user, prompt, 8);
    trailBefore := |store.conversations|;
    var rev := store.MakeRevision(user, pid, Str(change));
    status := rev.status;
    balance := store.users[user].credits;
    trailAfter := |store.conversations|;
  }

  /** A model whose revision code call always throws yields no revision. */
  lemma ThrowingCodeCallFails(model: Model, message: string, currentCode: Option<string>)
    requires forall request :: model(UpdatedHtmlInstruction, request) == Threw
    ensures RevisionGeneration(model, message, currentCode).None?
  {
  }

  /** The background revision with a model whose code call always throws: a refund, and nothing
    * else changes. */
  method RunThrowingRevision(store: Store, pid: ProjectId, user: UserId, change: string, model: Model)
    requires store.Valid()
    requires forall request :: model(UpdatedHtmlInstruction, request) == Threw
    modifies store
    ensures store.Valid()
    ensures store.users == AddCredits(old(store.users), user, GenerationCost)
    ensures store.projects == old(store.projects)
  {
    ThrowingCodeCallFails(model, change, if pid in store.projects then store.projects[pid].currentCode else None);
    store.ProcessRevisionInBackground(pid, change, user, model);
  }

  /** A user with 10 credits before a revision (5 showing once it is accepted) whose code
    * generation throws gets the 5 back, and the project keeps its code. */
  method FailedRevisionScenario(model: Model, user: UserId, prompt: string, change: string)
    returns (balanceBefore: int, balanceDuring: int, balanceAfter: int, codeBefore: Option<string>, codeAfter: Option<string>)
    requires user != "" && prompt != "" && !Text.IsBlank(change)
    requires InitialGeneration(model, prompt).Some?
    requires forall request :: model(UpdatedHtmlInstruction, request) == Threw
    ensures balanceBefore == 10 && balanceDuring == 5 && balanceAfter == 10
    ensures codeAfter == codeBefore && codeBefore.Some?
  {
    var store, pid := StoreWithGeneratedProject(model, user, prompt, 15);
    balanceBefore := store.users[user].credits;
    codeBefore := store.projects[pid].currentCode;
    assert RevisionRejection(store.users, store.projects, user, pid, Str(change)).None?;
    var rev := store.MakeRevision(user, pid, Str(change));
    balanceDuring := store.users[user].credits;
    RunThrowingRevision(store, pid, user, change, model);
    balanceAfter := store.users[user].credits;
    codeAfter := store.projects[pid].currentCode;
  }
}
