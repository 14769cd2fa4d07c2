/** `KeycloakProvisioner.provision`: a fixed list of operations, each of which may fail on its own. */
module Provisioning {

  datatype Config = Config(
    realm: string,
    clientId: string,
    realmRoles: seq<string>,
    clientRoles: seq<string>,
    dryRun: bool)

  datatype Resource = Realm | Client | RealmRole(role: string) | ClientRole(role: string)

  // The state of a resource; two of them are equal when the admin API sees no difference.
  datatype Setting = Setting(id: nat)

  // What the admin server holds, by resource of this realm and client.
  type World = map<Resource, Setting>

  datatype Reply = Raised(message: string) | Returned(state: string)

  /** The admin client: its n-th call, made in some world on some resource, leaves a world and
      answers.  `mask` hides secrets in a message, `declared` is what the configuration asks for. */
  datatype Admin = Admin(
    call: (nat, World, Resource) -> (World, Reply),
    mask: string -> string,
    declared: Resource -> Setting)

  // The result lists; `kept` is the list of the unchanged items.
  datatype Outcome = Outcome(
    created: seq<string>,
    updated: seq<string>,
    kept: seq<string>,
    failed: seq<(string, string)>,
    planned: seq<string>,
    dryRun: bool)

  // ----- The operations and their names -----

  function NameOf(cfg: Config, resource: Resource): string {
    match resource
    case Realm => "realm:" + cfg.realm
    case Client => "client:" + cfg.clientId
    case RealmRole(role) => "realm-role:" + role
    case ClientRole(role) => "client-role:" + cfg.clientId + "/" + role
  }

  function Operations(cfg: Config): seq<Resource> {
    [Realm, Client]
    + seq(|cfg.realmRoles|, i requires 0 <= i < |cfg.realmRoles| => RealmRole(cfg.realmRoles[i]))
    + seq(|cfg.clientRoles|, i requires 0 <= i < |cfg.clientRoles| => ClientRole(cfg.clientRoles[i]))
  }

  function Names(cfg: Config, operations: seq<Resource>): (names: seq<string>)
    ensures |names| == |operations|
    ensures forall i :: 0 <= i < |names| ==> names[i] == NameOf(cfg, operations[i])
  {
    seq(|operations|, i requires 0 <= i < |operations| => NameOf(cfg, operations[i]))
  }

  /** One operation for the realm, one for the client, then one for each realm role and one for each client
      role, in the order of the configuration; these and no others, under these names. */
  lemma OperationsAre(cfg: Config)
    ensures var (operations, n) := (Operations(cfg), |cfg.realmRoles|);
            var names := Names(cfg, operations);
            && |operations| == 2 + n + |cfg.clientRoles|
            && operations[0] == Realm && names[0] == "realm:" + cfg.realm
            && operations[1] == Client && names[1] == "client:" + cfg.clientId
            && (forall i :: 0 <= i < n ==>
                  && operations[2 + i] == RealmRole(cfg.realmRoles[i])
                  && names[2 + i] == "realm-role:" + cfg.realmRoles[i])
            && (forall i :: 0 <= i < |cfg.clientRoles| ==>
                  && operations[2 + n + i] == ClientRole(cfg.clientRoles[i])
                  && names[2 + n + i] == "client-role:" + cfg.clientId + "/" + cfg.clientRoles[i])
    ensures Realm in Operations(cfg) && Client in Operations(cfg)
    ensures forall role :: RealmRole(role) in Operations(cfg) <==> role in cfg.realmRoles
    ensures forall role :: ClientRole(role) in Operations(cfg) <==> role in cfg.clientRoles
  {
    var operations, n := Operations(cfg), |cfg.realmRoles|;
    assert operations[0] == Realm && operations[1] == Client;
    forall role
      ensures RealmRole(role) in operations <==> role in cfg.realmRoles
      ensures ClientRole(role) in operations <==> role in cfg.clientRoles
    {
      if role in cfg.realmRoles {
        var i :| 0 <= i < n && cfg.realmRoles[i] == role;
        assert operations[2 + i] == RealmRole(role);
      }
      if role in cfg.clientRoles {
        var i :| 0 <= i < |cfg.clientRoles| && cfg.clientRoles[i] == role;
        assert operations[2 + n + i] == ClientRole(role);
      }
    }
  }

  lemma SamePrefix(prefix: string, a: string, b: string)
    requires prefix + a == prefix + b
    ensures a == b
  {
    assert (prefix + a)[|prefix|..] == a;
    assert (prefix + b)[|prefix|..] == b;
  }

  /** In one configuration a name stands for one resource. */
  lemma NamesAreDistinct(cfg: Config, a: Resource, b: Resource)
    requires NameOf(cfg, a) == NameOf(cfg, b)
    ensures a == b
  {
    var s, t := NameOf(cfg, a), NameOf(cfg, b);
    assert a.Realm? ==> s[0] == 'r' && s[5] == ':';
    assert a.RealmRole? ==> s[0] == 'r' && s[5] == '-';
    assert a.Client? ==> s[0] == 'c' && s[6] == ':';
    assert a.ClientRole? ==> s[0] == 'c' && s[6] == '-';
    assert b.Realm? ==> t[0] == 'r' && t[5] == ':';
    assert b.RealmRole? ==> t[0] == 'r' && t[5] == '-';
    assert b.Client? ==> t[0] == 'c' && t[6] == ':';
    assert b.ClientRole? ==> t[0] == 'c' && t[6] == '-';
    if a.RealmRole? && b.RealmRole? {
      SamePrefix("realm-role:", a.role, b.role);
    } else if a.ClientRole? && b.ClientRole? {
      SamePrefix("client-role:" + cfg.clientId + "/", a.role, b.role);
    }
  }

  // ----- A run -----

  datatype Kind = Created | Updated | Kept | Failed

  function KindOf(reply: Reply): Kind {
    match reply
    case Raised(_) => Failed
    case Returned(state) => if state == "created" then Created else if state == "updated" then Updated else Kept
  }

  function FailureText(admin: Admin, reply: Reply): string
    requires reply.Raised?
  {
    var text := admin.mask(reply.message);
    if text == "" then "***" else text
  }

  // The world and the answers of the admin after the operations, its first call being the n-th.
  function Worlds(admin: Admin, n: nat, world: World, operations: seq<Resource>): (World, seq<Reply>) {
    if operations == [] then (world, [])
    else
      var k := |operations| - 1;
      var (before, replies) := Worlds(admin, n, world, operations[..k]);
      var (after, reply) := admin.call(n + k, before, operations[k]);
      (after, replies + [reply])
  }

  lemma {:induction false} OneReplyEach(admin: Admin, n: nat, world: World, operations: seq<Resource>)
    ensures |Worlds(admin, n, world, operations).1| == |operations|
  {
    if operations != [] {
      OneReplyEach(admin, n, world, operations[..|operations| - 1]);
    }
  }

  // The elements at the places of one kind, in order.
  function Select<T>(items: seq<T>, kinds: seq<Kind>, kind: Kind): seq<T>
    requires |items| == |kinds|
  {
    if items == [] then []
    else
      var k := |items| - 1;
      Select(items[..k], kinds[..k], kind) + if kinds[k] == kind then [items[k]] else []
  }

  lemma SelectAppend<T>(items: seq<T>, kinds: seq<Kind>, kind: Kind, item: T, k: Kind)
    requires |items| == |kinds|
    ensures Select(items + [item], kinds + [k], kind) == Select(items, kinds, kind) + if k == kind then [item] else []
  {
    assert (items + [item])[..|items|] == items;
    assert (kinds + [k])[..|items|] == kinds;
  }

  function Kinds(replies: seq<Reply>): (kinds: seq<Kind>)
    ensures |kinds| == |replies|
  {
    seq(|replies|, i requires 0 <= i < |replies| => KindOf(replies[i]))
  }

  // The failed list holds an item with the text of its exception.
  function WithTexts(admin: Admin, names: seq<string>, replies: seq<Reply>): (r: seq<(string, string)>)
    requires |names| == |replies|
    ensures |r| == |names|
  {
    seq(|names|, i requires 0 <= i < |names| =>
      (names[i], if replies[i].Raised? then FailureText(admin, replies[i]) else ""))
  }

  function FirstOfEach(pairs: seq<(string, string)>): (r: seq<string>)
    ensures |r| == |pairs|
  {
    seq(|pairs|, i requires 0 <= i < |pairs| => pairs[i].0)
  }

  /** The result of a real run: each name goes to the list of its answer's kind, in order. */
  function Dealt(admin: Admin, names: seq<string>, replies: seq<Reply>): Outcome
    requires |names| == |replies|
  {
    var kinds := Kinds(replies);
    Outcome(Select(names, kinds, Created), Select(names, kinds, Updated), Select(names, kinds, Kept),
            Select(WithTexts(admin, names, replies), kinds, Failed), [], false)
  }

  // One more answer recorded under the name of its item.
  function Recorded(admin: Admin, result: Outcome, name: string, reply: Reply): Outcome {
    match KindOf(reply)
    case Created => result.(created := result.created + [name])
    case Updated => result.(updated := result.updated + [name])
    case Kept => result.(kept := result.kept + [name])
    case Failed => result.(failed := result.failed + [(name, FailureText(admin, reply))])
  }

  lemma WorldsOneMore(admin: Admin, n: nat, world: World, operations: seq<Resource>, i: nat)
    requires i < |operations|
    ensures var (before, replies) := Worlds(admin, n, world, operations[..i]);
            var (after, reply) := admin.call(n + i, before, operations[i]);
            Worlds(admin, n, world, operations[..i + 1]) == (after, replies + [reply])
  {
    assert operations[..i + 1][..i] == operations[..i];
  }

  /** The lists start empty; each answer adds its name to one of them, by the state it returned, or with the
      masked message of its exception, which is "***" if masking leaves nothing. */
  lemma AnswersAreDealt(admin: Admin, names: seq<string>, replies: seq<Reply>, name: string, reply: Reply)
    requires |names| == |replies|
    ensures Dealt(admin, [], []) == Outcome([], [], [], [], [], false)
    ensures var (before, after) := (Dealt(admin, names, replies), Dealt(admin, names + [name], replies + [reply]));
            match reply
            case Returned("created") => after == before.(created := before.created + [name])
            case Returned("updated") => after == before.(updated := before.updated + [name])
            case Returned(_) => after == before.(kept := before.kept + [name])
            case Raised(message) =>
              var text := admin.mask(message);
              after == before.(failed := before.failed + [(name, if text == "" then "***" else text)])
  {
    var kinds, kind := Kinds(replies), KindOf(reply);
    var pairs := WithTexts(admin, names, replies);
    var pair := (name, if reply.Raised? then FailureText(admin, reply) else "");
    assert Kinds(replies + [reply]) == kinds + [kind];
    assert WithTexts(admin, names + [name], replies + [reply]) == pairs + [pair];
    SelectAppend(names, kinds, Created, name, kind);
    SelectAppend(names, kinds, Updated, name, kind);
    SelectAppend(names, kinds, Kept, name, kind);
    SelectAppend(pairs, kinds, Failed, pair, kind);
  }

  /** The n-th call of the admin is made in the world that the calls before it left, on the resource of its
      operation. */
  lemma CallsAreMade(admin: Admin, n: nat, world: World, operations: seq<Resource>, resource: Resource)
    ensures Worlds(admin, n, world, []) == (world, [])
    ensures var (before, replies) := Worlds(admin, n, world, operations);
            var (after, reply) := admin.call(n + |operations|, before, resource);
            && Worlds(admin, n, world, operations + [resource]) == (after, replies + [reply])
            && |replies| == |operations|
  {
    assert (operations + [resource])[..|operations|] == operations;
    OneReplyEach(admin, n, world, operations);
  }

  class KeycloakProvisioner {
    const config: Config
    const admin: Admin

    // The admin server, and the calls it has received.
    var world: World
    var calls: seq<Resource>

    constructor (config: Config, admin: Admin, world: World)
      ensures this.config == config && this.admin == admin && this.world == world && calls == []
    {
      this.config := config;
      this.admin := admin;
      this.world := world;
      calls := [];
    }

    method Ensure(resource: Resource) returns (reply: Reply)
      modifies this
      ensures (world, reply) == admin.call(|old(calls)|, old(world), resource)
      ensures calls == old(calls) + [resource]
    {
      var answer := admin.call(|calls|, world, resource);
      world, reply := answer.0, answer.1;
      calls := calls + [resource];
    }

    method Provision() returns (result: Outcome)
      modifies this
      ensures config.dryRun ==>
                && result == Outcome([], [], [], [], Names(config, Operations(config)), true)
                && world == old(world) && calls == old(calls)
      ensures !config.dryRun ==>
                var (after, replies) := Worlds(admin, |old(calls)|, old(world), Operations(config));
                && |replies| == |Operations(config)|
                && result == Dealt(admin, Names(config, Operations(config)), replies)
                && world == after && calls == old(calls) + Operations(config)
    {
      hide Worlds, Dealt, Names, NameOf, Operations;
      var operations := Operations(config);
      if config.dryRun {
        return Outcome([], [], [], [], Names(config, operations), true);
      }
      result := Outcome([], [], [], [], [], false);
      ghost var replies: seq<Reply> := [];
      NothingDealt(config, admin, |calls|, world);
      for i := 0 to |operations|
        invariant calls == old(calls) + operations[..i]
        invariant (world, replies) == Worlds(admin, |old(calls)|, old(world), operations[..i])
        invariant |replies| == i
        invariant result == Dealt(admin, Names(config, operations[..i]), replies)
      {
        var itemName := NameOf(config, operations[i]);
        WorldsOneMore(admin, |old(calls)|, old(world), operations, i);
        var reply := Ensure(operations[i]);
        DealOneMore(config, admin, operations[..i], replies, operations[i], reply);
        ghost var before := result;
        match reply {
          case Raised(message) =>
            var text := admin.mask(message);
            result := result.(failed := result.failed + [(itemName, if text == "" then "***" else text)]);
          case Returned(state) =>
            if state == "created" {
              result := result.(created := result.created + [itemName]);
            } else if state == "updated" {
              result := result.(updated := result.updated + [itemName]);
            } else {
              result := result.(kept := result.kept + [itemName]);
            }
        }
        replies := replies + [reply];
        assert result == Recorded(admin, before, itemName, reply);
        assert operations[..i + 1] == operations[..i] + [operations[i]];
      }
      assert operations[..|operations|] == operations;
    }
  }

  lemma NothingDealt(cfg: Config, admin: Admin, n: nat, world: World)
    ensures Dealt(admin, Names(cfg, []), []) == Outcome([], [], [], [], [], false)
    ensures Worlds(admin, n, world, []) == (world, [])
  {
  }

  lemma DealOneMore(cfg: Config, admin: Admin, done: seq<Resource>, replies: seq<Reply>,
                    resource: Resource, reply: Reply)
    requires |done| == |replies|
    ensures var before := Dealt(admin, Names(cfg, done), replies);
            var after := Dealt(admin, Names(cfg, done + [resource]), replies + [reply]);
            var name := NameOf(cfg, resource);
            after == Recorded(admin, before, name, reply)
  {
    hide Dealt, NameOf;
    assert Names(cfg, done + [resource]) == Names(cfg, done) + [NameOf(cfg, resource)];
    AnswersAreDealt(admin, Names(cfg, done), replies, NameOf(cfg, resource), reply);
  }

  // ----- Conservation -----

  // The lists of a result, names only.
  function Listed(result: Outcome): seq<seq<string>> {
    [result.created, result.updated, result.kept, FirstOfEach(result.failed)]
  }

  // a is b with some elements left out.
  ghost predicate IsSubsequence(a: seq<string>, b: seq<string>) {
    if a == [] then true
    else if b == [] then false
    else if a[|a| - 1] == b[|b| - 1] && IsSubsequence(a[..|a| - 1], b[..|b| - 1]) then true
    else IsSubsequence(a, b[..|b| - 1])
  }

  lemma {:induction false} SelectIsSubsequence(names: seq<string>, kinds: seq<Kind>, kind: Kind)
    requires |names| == |kinds|
    ensures IsSubsequence(Select(names, kinds, kind), names)
  {
    if names != [] {
      var k := |names| - 1;
      SelectIsSubsequence(names[..k], kinds[..k], kind);
      var some := Select(names[..k], kinds[..k], kind);
      if kinds[k] == kind {
        assert (some + [names[k]])[..|some|] == some;
      } else {
        assert some + [] == some;
      }
    }
  }

  lemma {:induction false} SelectsPartition(names: seq<string>, kinds: seq<Kind>)
    requires |names| == |kinds|
    ensures multiset(Select(names, kinds, Created)) + multiset(Select(names, kinds, Updated))
            + multiset(Select(names, kinds, Kept)) + multiset(Select(names, kinds, Failed))
         == multiset(names)
  {
    hide Select;
    if names == [] {
      NothingSelected(kinds);
    } else {
      var k := |names| - 1;
      var items, some := names[..k], kinds[..k];
      SelectsPartition(items, some);
      assert names == items + [names[k]] && kinds == some + [kinds[k]];
      SelectAppend(items, some, Created, names[k], kinds[k]);
      SelectAppend(items, some, Updated, names[k], kinds[k]);
      SelectAppend(items, some, Kept, names[k], kinds[k]);
      SelectAppend(items, some, Failed, names[k], kinds[k]);
    }
  }

  lemma NothingSelected(kinds: seq<Kind>)
    requires kinds == []
    ensures forall kind :: Select<string>([], kinds, kind) == []
  {
  }

  lemma {:induction false} FailedNames(admin: Admin, names: seq<string>, replies: seq<Reply>, kinds: seq<Kind>)
    requires |names| == |replies| == |kinds|
    ensures FirstOfEach(Select(WithTexts(admin, names, replies), kinds, Failed)) == Select(names, kinds, Failed)
  {
    if names != [] {
      var k := |names| - 1;
      FailedNames(admin, names[..k], replies[..k], kinds[..k]);
      assert WithTexts(admin, names, replies)[..k] == WithTexts(admin, names[..k], replies[..k]);
    }
  }

  /** For every pattern of answers the four lists together are the operation names, each list in
      the order of the operations. */
  lemma NothingIsLost(admin: Admin, names: seq<string>, replies: seq<Reply>)
    requires |names| == |replies|
    ensures var lists := Listed(Dealt(admin, names, replies));
            && multiset(lists[0]) + multiset(lists[1]) + multiset(lists[2]) + multiset(lists[3]) == multiset(names)
            && IsSubsequence(lists[0], names) && IsSubsequence(lists[1], names)
            && IsSubsequence(lists[2], names) && IsSubsequence(lists[3], names)
  {
    hide Select, IsSubsequence, Kinds, WithTexts, FirstOfEach;
    var kinds := Kinds(replies);
    FailedNames(admin, names, replies, kinds);
    SelectsPartition(names, kinds);
    SelectIsSubsequence(names, kinds, Created);
    SelectIsSubsequence(names, kinds, Updated);
    SelectIsSubsequence(names, kinds, Kept);
    SelectIsSubsequence(names, kinds, Failed);
  }

  // ----- Convergence -----

  /** An admin client of the "ensure" kind: a call that raises changes nothing, a call that returns
      leaves the resource as declared and says whether it had to do anything. */
  ghost predicate IsEnsureStyle(admin: Admin) {
    forall n: nat, world, resource ::
      var (after, reply) := admin.call(n, world, resource);
      match reply
      case Raised(_) => after == world
      case Returned(state) =>
        && after == world[resource := admin.declared(resource)]
        && state == if resource !in world then "created"
                    else if world[resource] != admin.declared(resource) then "updated"
                    else "unchanged"
  }

  predicate AsDeclared(admin: Admin, world: World, resource: Resource) {
    resource in world && world[resource] == admin.declared(resource)
  }

  predicate Untouched(before: World, after: World, resource: Resource) {
    (resource in after <==> resource in before) && (resource in before ==> after[resource] == before[resource])
  }

  lemma EnsureCall(admin: Admin, n: nat, world: World, target: Resource, resource: Resource)
    requires IsEnsureStyle(admin)
    ensures var (after, reply) := admin.call(n, world, target);
            && (reply.Returned? ==> AsDeclared(admin, after, target))
            && (resource != target || reply.Raised? ==> Untouched(world, after, resource))
            && (AsDeclared(admin, world, target) ==>
                  after == world && (reply.Returned? ==> reply.state == "unchanged"))
  {
  }

  /** Each resource ends as declared or as it was; as declared if one of its operations returned. */
  lemma {:induction false} RunSettles(admin: Admin, n: nat, world: World, operations: seq<Resource>, resource: Resource)
    requires IsEnsureStyle(admin)
    ensures var (after, replies) := Worlds(admin, n, world, operations);
            && |replies| == |operations|
            && (AsDeclared(admin, after, resource) || Untouched(world, after, resource))
            && (resource !in operations ==> Untouched(world, after, resource))
            && forall i :: 0 <= i < |operations| && operations[i] == resource && replies[i].Returned? ==>
                 AsDeclared(admin, after, resource)
  {
    hide IsEnsureStyle;
    if operations != [] {
      var k := |operations| - 1;
      RunSettles(admin, n, world, operations[..k], resource);
      var (before, replies) := Worlds(admin, n, world, operations[..k]);
      EnsureCall(admin, n + k, before, operations[k], resource);
      var (after, reply) := admin.call(n + k, before, operations[k]);
      assert Worlds(admin, n, world, operations) == (after, replies + [reply]);
      if AsDeclared(admin, before, resource) {
        assert AsDeclared(admin, after, resource);
      } else if operations[k] == resource && reply.Returned? {
        assert AsDeclared(admin, after, resource);
      } else {
        assert Untouched(before, after, resource);
        assert Untouched(world, after, resource);
      }
      assert operations == operations[..k] + [operations[k]];
    }
  }

  lemma {:induction false} ListedByKind(names: seq<string>, kinds: seq<Kind>, i: nat)
    requires |names| == |kinds| && i < |names|
    ensures names[i] in Select(names, kinds, kinds[i])
  {
    var k := |names| - 1;
    if i < k {
      ListedByKind(names[..k], kinds[..k], i);
    }
  }

  // A list of the result by its kind, names only.
  function ListOf(result: Outcome, kind: Kind): seq<string> {
    match kind
    case Created => result.created
    case Updated => result.updated
    case Kept => result.kept
    case Failed => FirstOfEach(result.failed)
  }

  lemma {:induction false} RepliesOfPrefix(admin: Admin, n: nat, world: World, operations: seq<Resource>, i: nat)
    requires i < |operations|
    ensures var replies := Worlds(admin, n, world, operations).1;
            && |replies| == |operations|
            && replies[i] == admin.call(n + i, Worlds(admin, n, world, operations[..i]).0, operations[i]).1
  {
    var k := |operations| - 1;
    OneReplyEach(admin, n, world, operations);
    OneReplyEach(admin, n, world, operations[..k]);
    if i < k {
      RepliesOfPrefix(admin, n, world, operations[..k], i);
      assert operations[..k][..i] == operations[..i];
    }
  }

  /** The report tells what there was: the first operation on a resource is listed as created,
      updated or unchanged according to the world before the run, or as failed if it raised. */
  lemma ReportIsTrue(cfg: Config, admin: Admin, n: nat, world: World, i: nat)
    requires IsEnsureStyle(admin) && i < |Operations(cfg)|
    requires Operations(cfg)[i] !in Operations(cfg)[..i]
    ensures var operations := Operations(cfg);
            var (resource, replies) := (operations[i], Worlds(admin, n, world, operations).1);
            && |replies| == |operations|
            && var kind := if replies[i].Raised? then Failed
                           else if resource !in world then Created
                           else if world[resource] != admin.declared(resource) then Updated
                           else Kept;
            NameOf(cfg, resource) in ListOf(Dealt(admin, Names(cfg, operations), replies), kind)
  {
    hide Operations;
    var operations := Operations(cfg);
    var replies := Worlds(admin, n, world, operations).1;
    RepliesOfPrefix(admin, n, world, operations, i);
    RunSettles(admin, n, world, operations[..i], operations[i]);
    FailedNames(admin, Names(cfg, operations), replies, Kinds(replies));
    ListedByKind(Names(cfg, operations), Kinds(replies), i);
  }

  /** After any run every item that is not listed as failed is in its declared state, and what was
      not declared is left alone. */
  lemma ProvisioningConverges(cfg: Config, admin: Admin, n: nat, world: World, resource: Resource)
    requires IsEnsureStyle(admin)
    ensures var (after, replies) := Worlds(admin, n, world, Operations(cfg));
            && |replies| == |Operations(cfg)|
            && var failed := FirstOfEach(Dealt(admin, Names(cfg, Operations(cfg)), replies).failed);
            && (resource in Operations(cfg) && NameOf(cfg, resource) !in failed ==> AsDeclared(admin, after, resource))
            && (resource !in Operations(cfg) ==> Untouched(world, after, resource))
  {
    var operations := Operations(cfg);
    var (after, replies) := Worlds(admin, n, world, operations);
    RunSettles(admin, n, world, operations, resource);
    if resource in operations {
      var i: nat :| i < |operations| && operations[i] == resource;
      FailedNames(admin, Names(cfg, operations), replies, Kinds(replies));
      if replies[i].Raised? {
        ListedByKind(Names(cfg, operations), Kinds(replies), i);
      }
    }
  }

  /** So after any run the realm, the client, every realm role and every client role of the configuration is
      in its declared state, unless its name is among the failed; and every other role is left alone. */
  lemma ConfigurationConverges(cfg: Config, admin: Admin, n: nat, world: World, role: string)
    requires IsEnsureStyle(admin)
    ensures var (after, replies) := Worlds(admin, n, world, Operations(cfg));
            && |replies| == |Operations(cfg)|
            && var failed := FirstOfEach(Dealt(admin, Names(cfg, Operations(cfg)), replies).failed);
            && ("realm:" + cfg.realm !in failed ==> AsDeclared(admin, after, Realm))
            && ("client:" + cfg.clientId !in failed ==> AsDeclared(admin, after, Client))
            && (if role in cfg.realmRoles then
                  "realm-role:" + role !in failed ==> AsDeclared(admin, after, RealmRole(role))
                else Untouched(world, after, RealmRole(role)))
            && (if role in cfg.clientRoles then
                  "client-role:" + cfg.clientId + "/" + role !in failed ==> AsDeclared(admin, after, ClientRole(role))
                else Untouched(world, after, ClientRole(role)))
  {
    hide IsEnsureStyle, Operations, Worlds, Dealt;
    OperationsAre(cfg);
    ProvisioningConverges(cfg, admin, n, world, Realm);
    ProvisioningConverges(cfg, admin, n, world, Client);
    ProvisioningConverges(cfg, admin, n, world, RealmRole(role));
    ProvisioningConverges(cfg, admin, n, world, ClientRole(role));
  }

  /** Where every operation's resource is as declared, a run of calls that return changes nothing
      and reports every item unchanged. */
  lemma {:induction false} SettledRunKeeps(admin: Admin, n: nat, world: World, operations: seq<Resource>)
    requires IsEnsureStyle(admin)
    requires forall i :: 0 <= i < |operations| ==> AsDeclared(admin, world, operations[i])
    requires forall i :: 0 <= i < |Worlds(admin, n, world, operations).1| ==>
               Worlds(admin, n, world, operations).1[i].Returned?
    ensures var (after, replies) := Worlds(admin, n, world, operations);
            && after == world && |replies| == |operations|
            && forall i :: 0 <= i < |replies| ==> KindOf(replies[i]) == Kept
  {
    hide IsEnsureStyle;
    if operations != [] {
      var k := |operations| - 1;
      var (before, replies) := Worlds(admin, n, world, operations[..k]);
      var (after, reply) := admin.call(n + k, before, operations[k]);
      assert Worlds(admin, n, world, operations).1 == replies + [reply];
      assert forall i :: 0 <= i < |replies| ==> (replies + [reply])[i] == replies[i];
      SettledRunKeeps(admin, n, world, operations[..k]);
      EnsureCall(admin, n + k, world, operations[k], operations[k]);
      assert (replies + [reply])[k] == reply;
    }
  }

  lemma {:induction false} AllOfOneKind(names: seq<string>, kinds: seq<Kind>, kind: Kind)
    requires |names| == |kinds| && forall i :: 0 <= i < |kinds| ==> kinds[i] == kind
    ensures Select(names, kinds, kind) == names
    ensures forall other :: other != kind ==> Select(names, kinds, other) == []
  {
    if names != [] {
      var k := |names| - 1;
      AllOfOneKind(names[..k], kinds[..k], kind);
    }
  }

  lemma {:induction false} NoneOfAKind<T>(items: seq<T>, kinds: seq<Kind>, kind: Kind)
    requires |items| == |kinds| && forall i :: 0 <= i < |kinds| ==> kinds[i] != kind
    ensures Select(items, kinds, kind) == []
  {
    if items != [] {
      var k := |items| - 1;
      NoneOfAKind(items[..k], kinds[..k], kind);
    }
  }

  /** A run without failures makes an immediately following run without failures all unchanged,
      even when the same role is declared twice. */
  lemma RerunIsAllUnchanged(cfg: Config, admin: Admin, n: nat, world: World)
    requires IsEnsureStyle(admin)
    requires var (first, replies) := Worlds(admin, n, world, Operations(cfg));
             && |replies| == |Operations(cfg)|
             && Dealt(admin, Names(cfg, Operations(cfg)), replies).failed == []
             && var again := Worlds(admin, n + |Operations(cfg)|, first, Operations(cfg)).1;
             forall i :: 0 <= i < |again| ==> again[i].Returned?
    ensures var operations := Operations(cfg);
            var first := Worlds(admin, n, world, operations).0;
            var (second, again) := Worlds(admin, n + |operations|, first, operations);
            && second == first && |again| == |operations|
            && Dealt(admin, Names(cfg, operations), again) == Outcome([], [], Names(cfg, operations), [], [], false)
  {
    hide IsEnsureStyle, Operations, Worlds, Select, NameOf;
    var operations := Operations(cfg);
    var names := Names(cfg, operations);
    var first := Worlds(admin, n, world, operations).0;
    forall i | 0 <= i < |operations|
      ensures AsDeclared(admin, first, operations[i])
    {
      ProvisioningConverges(cfg, admin, n, world, operations[i]);
    }
    SettledRunKeeps(admin, n + |operations|, first, operations);
    var again := Worlds(admin, n + |operations|, first, operations).1;
    AllOfOneKind(names, Kinds(again), Kept);
    NoneOfAKind(WithTexts(admin, names, again), Kinds(again), Failed);
  }
}
