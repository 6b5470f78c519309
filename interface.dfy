/**
 * The polymorphic-association mixin: one logical reference ("pet") backed by
 * several mutually exclusive foreign-key columns ("dog_id", "kitty_id").
 *
 * A declaration `belongs_to_polymorphic :dog, :kitty, as: :pet` becomes a
 * `Polymorph` value; the methods the mixin generates for it become ordinary
 * functions over that value and the record's columns, and the two that change
 * the record (the setter and the validator) become methods of `Record`.
 */
module Interface {
  import opened Wrappers
  import opened RubyText

  /** Primary keys are integers; for them Rails' `present?` is "not nil". */
  type Id = int

  /**
   * An object handed to the setter or read through an association.
   * `typeTag` is `obj.class.name.underscore`, `parentTag` the same for its
   * superclass; both are supplied by the caller.
   */
  datatype Obj = Obj(typeTag: string, parentTag: string, id: Option<Id>)

  /** What one `belongs_to_polymorphic` declaration fixes for its class. */
  datatype Polymorph = Polymorph(api: string, associations: seq<string>)

  /** The exceptions of the mixin: the base class and its two subclasses. */
  datatype PolymorphicError =
    | Base(payload: seq<string>)
    | InvalidTypeError(accepted: seq<string>)
    | AmbiguousTypeError

  /** One entry of a record's `errors` collection. */
  datatype ErrorEntry = ErrorEntry(attribute: string, message: string)

  /** The record's foreign-key columns; an absent column reads as nil. */
  type Columns = map<string, Option<Id>>

  /** What each association reader returns; an absent name reads as nil. */
  type Loaded = map<string, Obj>

  // ---------------------------------------------------------------------
  // Sequences

  ghost predicate Distinct<T>(s: seq<T>) {
    forall i, j :: 0 <= i < j < |s| ==> s[i] != s[j]
  }

  /** `Array#select`: the elements that `keep` accepts, in order. */
  function Filter<T>(s: seq<T>, keep: T -> bool): (r: seq<T>)
    ensures |r| <= |s|
    ensures forall x :: x in r ==> x in s && keep(x)
    ensures forall i :: 0 <= i < |s| && keep(s[i]) ==> s[i] in r
  {
    if s == [] then []
    else (if keep(s[0]) then [s[0]] else []) + Filter(s[1..], keep)
  }

  /** Position `i` is the one and only position of `s` that `keep` accepts. */
  ghost predicate UniqueIndex<T>(s: seq<T>, keep: T -> bool, i: int) {
    && 0 <= i < |s|
    && keep(s[i])
    && forall j :: 0 <= j < |s| && j != i ==> !keep(s[j])
  }

  /** Positions of `s[1..]` are positions of `s` shifted by one. */
  lemma UniqueIndexTail<T>(s: seq<T>, keep: T -> bool, i: int)
    requires s != [] && !keep(s[0])
    ensures UniqueIndex(s, keep, i) <==> i > 0 && UniqueIndex(s[1..], keep, i - 1)
  {
  }

  /** `select` returns one element exactly when one position is accepted. */
  lemma {:induction false} FilterSingleton<T>(s: seq<T>, keep: T -> bool)
    ensures |Filter(s, keep)| == 1 <==> exists i :: UniqueIndex(s, keep, i)
    ensures forall i :: UniqueIndex(s, keep, i) ==> Filter(s, keep) == [s[i]]
    decreases |s|
  {
    if s != [] {
      var t := s[1..];
      FilterSingleton(t, keep);
      if keep(s[0]) {
        if Filter(t, keep) == [] {
          forall j | 0 < j < |s| ensures !keep(s[j]) {
            assert s[j] == t[j - 1];
          }
          assert UniqueIndex(s, keep, 0);
        } else {
          assert Filter(t, keep)[0] in Filter(t, keep);
          var j :| 0 <= j < |t| && t[j] == Filter(t, keep)[0];
          assert keep(s[j + 1]);
          forall i | 0 <= i < |s| ensures !UniqueIndex(s, keep, i) {
            var other := if i == 0 then j + 1 else 0;
            assert other != i && keep(s[other]);
          }
        }
      } else {
        forall i ensures UniqueIndex(s, keep, i) <==> i > 0 && UniqueIndex(t, keep, i - 1) {
          UniqueIndexTail(s, keep, i);
        }
        if |Filter(s, keep)| == 1 {
          var i :| UniqueIndex(t, keep, i);
          assert UniqueIndex(s, keep, i + 1);
        }
      }
    }
  }

  /** `xs & ys`: the elements of `xs` that are also in `ys`, each once. */
  function Intersect<T(==,!new)>(xs: seq<T>, ys: seq<T>): (r: seq<T>)
    ensures forall x :: x in r <==> x in xs && x in ys
    ensures Distinct(r)
    decreases |xs|
  {
    if xs == [] then []
    else
      var init := Intersect(xs[..|xs| - 1], ys);
      var last := xs[|xs| - 1];
      assert xs == xs[..|xs| - 1] + [last];
      if last in ys && last !in init then init + [last] else init
  }

  /** A list without repetitions has as many elements as its set of elements. */
  lemma {:induction false} DistinctCard<T>(r: seq<T>)
    requires Distinct(r)
    ensures |set x | x in r| == |r|
    decreases |r|
  {
    if r != [] {
      DistinctCard(r[1..]);
      assert (set x | x in r) == {r[0]} + (set x | x in r[1..]);
      assert r[0] !in r[1..];
    }
  }

  /** A list of distinct elements drawn from `{a, b}` has at most two, and two only if `a != b`. */
  lemma DistinctPair<T>(r: seq<T>, a: T, b: T)
    requires Distinct(r)
    requires forall x :: x in r ==> x == a || x == b
    ensures |r| <= 2
    ensures |r| == 2 ==> a != b && a in r && b in r
  {
    DistinctCard(r);
    var elements := set x | x in r;
    assert elements <= {a, b};
    if a in elements && b in elements {
      assert elements == {a, b};
    } else if a in elements {
      assert elements == {a};
    } else if b in elements {
      assert elements == {b};
    } else {
      assert elements == {};
    }
    if |r| == 2 {
      assert r[0] in r && r[1] in r;
    }
  }

  // ---------------------------------------------------------------------
  // The declaration and its generated helpers

  /** The foreign-key column of an association: its name followed by "_id". */
  function Key(association: string): (k: string)
    ensures |k| == |association| + 3 && k[..|association|] == association
    ensures k[|association|..] == "_id"
  {
    association + "_id"
  }

  /** Different associations have different key columns. */
  lemma KeyInjective(a: string, b: string)
    requires Key(a) == Key(b)
    ensures a == b
  {
  }

  /**
   * `belongs_to_polymorphic(*args, as: api)`: the association list is the
   * declared names, lowercased, in declaration order.
   */
  function BelongsToPolymorphic(args: seq<string>, api: string): (p: Polymorph)
    ensures p.api == api && |p.associations| == |args|
    ensures forall i :: 0 <= i < |args| ==> |p.associations[i]| == |args[i]|
    ensures forall i, c :: 0 <= i < |args| && 0 <= c < |args[i]| ==>
              !IsUpper(p.associations[i][c]) && (IsUpper(args[i][c]) || p.associations[i][c] == args[i][c])
    ensures forall i, c :: 0 <= i < |args| && 0 <= c < |args[i]| && IsUpper(args[i][c]) ==>
              p.associations[i][c] as int == args[i][c] as int + 32
  {
    Polymorph(api, seq(|args|, i requires 0 <= i < |args| => Downcase(args[i])))
  }

  /** `association_keys` (the `<API>_KEYS` constant): one key per association, position by position. */
  function Keys(p: Polymorph): (ks: seq<string>)
    ensures |ks| == |p.associations|
    ensures forall i :: 0 <= i < |ks| ==> ks[i] == Key(p.associations[i])
    ensures forall i :: 0 <= i < |ks| ==> StripId(ks[i]) == p.associations[i] || '\n' in p.associations[i]
  {
    var ks := seq(|p.associations|, i requires 0 <= i < |p.associations| => Key(p.associations[i]));
    forall i | 0 <= i < |ks| && '\n' !in p.associations[i]
      ensures StripId(ks[i]) == p.associations[i]
    {
      StripIdOfKey(p.associations[i]);
    }
    ks
  }

  /** Distinct associations give distinct keys. */
  lemma KeysDistinct(p: Polymorph)
    requires Distinct(p.associations)
    ensures Distinct(Keys(p))
  {
    var ks := Keys(p);
    forall i, j | 0 <= i < j < |ks| ensures ks[i] != ks[j] {
      if ks[i] == ks[j] {
        KeyInjective(p.associations[i], p.associations[j]);
      }
    }
  }

  /** `<api>_types`: the association list as declared. */
  function Types(p: Polymorph): (ts: seq<string>)
    ensures ts == p.associations
  {
    p.associations
  }

  /** `self.send(key).present?` for a foreign-key column. */
  predicate Present(cols: Columns, key: string) {
    key in cols && cols[key].Some?
  }

  function PresentIn(cols: Columns): string -> bool {
    key => Present(cols, key)
  }

  /** The declared keys whose column is set, in declaration order. */
  function PresentKeys(p: Polymorph, cols: Columns): (r: seq<string>)
    ensures forall k :: k in r ==> k in Keys(p) && Present(cols, k)
    ensures forall k :: k in Keys(p) && Present(cols, k) ==> k in r
  {
    Filter(Keys(p), PresentIn(cols))
  }

  /** `<api>_active_key`: the key that is set, if exactly one is. */
  function ActiveKey(p: Polymorph, cols: Columns): (r: Option<string>)
    ensures r.Some? ==> r.value in Keys(p) && Present(cols, r.value)
  {
    var present := PresentKeys(p, cols);
    if |present| == 1 then
      assert present[0] in present;
      Some(present[0])
    else None
  }

  /**
   * The active key is `k` exactly when `k` sits at the one position of the
   * key list whose column is set.
   */
  lemma ActiveKeyUnique(p: Polymorph, cols: Columns, k: string)
    ensures ActiveKey(p, cols) == Some(k) <==>
            exists i :: UniqueIndex(Keys(p), PresentIn(cols), i) && Keys(p)[i] == k
  {
    FilterSingleton(Keys(p), PresentIn(cols));
  }

  /** With zero set columns, or two or more, there is no active key. */
  lemma NoActiveKeyUnlessExactlyOne(p: Polymorph, cols: Columns)
    ensures ActiveKey(p, cols).None? <==> forall i :: !UniqueIndex(Keys(p), PresentIn(cols), i)
  {
    FilterSingleton(Keys(p), PresentIn(cols));
  }

  /** `<api>_query_condition`: `{active_key => its value}`, or nil. */
  function QueryCondition(p: Polymorph, cols: Columns): (r: Option<map<string, Id>>)
    ensures r.Some? <==> ActiveKey(p, cols).Some?
    ensures r.Some? ==> var k := ActiveKey(p, cols).value;
              r.value.Keys == {k} && k in cols && cols[k] == Some(r.value[k])
  {
    match ActiveKey(p, cols)
    case Some(k) => Some(map[k := cols[k].value])
    case None => None
  }

  function LoadedIn(objs: Loaded): string -> bool {
    association => association in objs
  }

  /** The reader of an association: `self.send(association)`. */
  function Read(objs: Loaded, association: string): Option<Obj> {
    if association in objs then Some(objs[association]) else None
  }

  /**
   * The getter `<api>`: with an active key, the association it names;
   * otherwise the one association object assigned directly, if only one is.
   */
  function Getter(p: Polymorph, cols: Columns, objs: Loaded): (r: Option<Obj>)
    ensures r.Some? ==> r.value in objs.Values
  {
    match ActiveKey(p, cols)
    case Some(k) => Read(objs, StripId(k))
    case None =>
      var loaded := Filter(p.associations, LoadedIn(objs));
      if |loaded| == 1 then
        assert loaded[0] in loaded;
        Some(objs[loaded[0]])
      else None
  }

  /** With an active key the getter reads the association that owns that key. */
  lemma GetterFollowsActiveKey(p: Polymorph, cols: Columns, objs: Loaded, i: nat)
    requires i < |p.associations| && '\n' !in p.associations[i]
    requires ActiveKey(p, cols) == Some(Key(p.associations[i]))
    ensures Getter(p, cols, objs) == Read(objs, p.associations[i])
  {
    StripIdOfKey(p.associations[i]);
  }

  /**
   * Without an active key the getter returns an object exactly when one
   * association reader returns one, and then it is that object.
   */
  lemma GetterFallback(p: Polymorph, cols: Columns, objs: Loaded)
    requires ActiveKey(p, cols).None?
    ensures Getter(p, cols, objs).Some? <==> exists i :: UniqueIndex(p.associations, LoadedIn(objs), i)
    ensures forall i :: UniqueIndex(p.associations, LoadedIn(objs), i) ==>
              Getter(p, cols, objs) == Some(objs[p.associations[i]])
  {
    FilterSingleton(p.associations, LoadedIn(objs));
  }

  // ---------------------------------------------------------------------
  // The setter

  /**
   * The decision of the setter `<api>=`: the declared associations equal to
   * the object's own or parent type tag. None raises the base error carrying
   * the association list; two raise `AmbiguousTypeError`; one is the match.
   */
  function Resolve(p: Polymorph, obj: Obj): (r: Result<string, PolymorphicError>)
    ensures r == Err(Base(p.associations)) <==>
            obj.typeTag !in p.associations && obj.parentTag !in p.associations
    ensures r == Err(AmbiguousTypeError) <==>
            obj.typeTag in p.associations && obj.parentTag in p.associations && obj.typeTag != obj.parentTag
    ensures r.Ok? <==> (obj.typeTag in p.associations || obj.parentTag in p.associations) &&
                       !(obj.typeTag in p.associations && obj.parentTag in p.associations && obj.typeTag != obj.parentTag)
    ensures r.Err? ==> r.error == Base(p.associations) || r.error == AmbiguousTypeError
    ensures r.Ok? ==> r.value in p.associations
    ensures r.Ok? ==> r.value == (if obj.typeTag in p.associations then obj.typeTag else obj.parentTag)
  {
    var matches := Intersect(p.associations, [obj.typeTag, obj.parentTag]);
    DistinctPair(matches, obj.typeTag, obj.parentTag);
    if |matches| == 0 then
      assert obj.typeTag !in matches && obj.parentTag !in matches;
      Err(Base(p.associations))
    else if |matches| > 1 then Err(AmbiguousTypeError)
    else
      assert matches[0] in matches;
      assert obj.typeTag in p.associations && obj.parentTag in p.associations ==> obj.typeTag == obj.parentTag by {
        if obj.typeTag in p.associations && obj.parentTag in p.associations {
          assert obj.typeTag in matches && obj.parentTag in matches;
        }
      }
      Ok(matches[0])
  }

  /** The key columns of a list of associations. */
  ghost function KeySet(associations: seq<string>): set<string> {
    set a | a in associations :: Key(a)
  }

  /**
   * The columns after a successful assignment: the matched key holds the
   * object's id, every other declared key is nil, other columns are as before.
   */
  ghost function Assigned(associations: seq<string>, cols: Columns, matched: string, id: Option<Id>): Columns {
    map k | k in cols.Keys + KeySet(associations) + {Key(matched)} ::
      if k == Key(matched) then id
      else if k in KeySet(associations) then None
      else cols[k]
  }

  /** The columns after the setter's writes so far: the matched key, then each key of `reset` in turn. */
  ghost function Written(cols: Columns, matched: string, id: Option<Id>, reset: seq<string>): Columns
    decreases |reset|
  {
    if reset == [] then cols[Key(matched) := id]
    else Written(cols, matched, id, reset[..|reset| - 1])[Key(reset[|reset| - 1]) := None]
  }

  /** Writing the keys one at a time gives the columns `Assigned` describes. */
  lemma {:induction false} WrittenIsAssigned(cols: Columns, matched: string, id: Option<Id>, reset: seq<string>)
    requires matched !in reset
    ensures Written(cols, matched, id, reset) == Assigned(reset, cols, matched, id)
    decreases |reset|
  {
    if reset == [] {
      assert KeySet([]) == {};
    } else {
      var init, last := reset[..|reset| - 1], reset[|reset| - 1];
      assert reset == init + [last];
      WrittenIsAssigned(cols, matched, id, init);
      AssignedSnoc(init, last, cols, matched, id);
    }
  }

  /** Resetting one more association's key is one more write of nil. */
  lemma AssignedSnoc(reset: seq<string>, a: string, cols: Columns, matched: string, id: Option<Id>)
    requires a != matched
    ensures Assigned(reset + [a], cols, matched, id) == Assigned(reset, cols, matched, id)[Key(a) := None]
  {
  }

  /** Resetting the other associations is resetting all of them, the matched one excepted. */
  lemma AssignedOthers(associations: seq<string>, others: seq<string>, cols: Columns, matched: string, id: Option<Id>)
    requires matched in associations
    requires forall a :: a in others <==> a in associations && a != matched
    ensures Assigned(others, cols, matched, id) == Assigned(associations, cols, matched, id)
  {
  }

  /** After assigning an object with an id, its key is the active key; without an id there is none. */
  lemma AssignedActiveKey(p: Polymorph, cols: Columns, matched: string, id: Option<Id>)
    requires Distinct(p.associations) && matched in p.associations
    ensures ActiveKey(p, Assigned(p.associations, cols, matched, id)) ==
            if id.Some? then Some(Key(matched)) else None
  {
    var after := Assigned(p.associations, cols, matched, id);
    var ks := Keys(p);
    KeysDistinct(p);
    var m :| 0 <= m < |p.associations| && p.associations[m] == matched;
    assert forall j :: 0 <= j < |ks| ==> ks[j] in KeySet(p.associations);
    assert forall j :: 0 <= j < |ks| && j != m ==> !Present(after, ks[j]);
    if id.Some? {
      assert UniqueIndex(ks, PresentIn(after), m);
      ActiveKeyUnique(p, after, Key(matched));
    } else {
      assert forall j :: 0 <= j < |ks| ==> !Present(after, ks[j]);
      NoActiveKeyUnlessExactlyOne(p, after);
    }
  }

  /** A second assignment wipes out every trace of the first. */
  lemma AssignOverwrites(associations: seq<string>, cols: Columns, m1: string, id1: Option<Id>, m2: string, id2: Option<Id>)
    requires m1 in associations
    ensures Assigned(associations, Assigned(associations, cols, m1, id1), m2, id2) ==
            Assigned(associations, cols, m2, id2)
  {
  }

  /** The getter then returns whatever the matched association's reader returns. */
  lemma AssignedGetter(p: Polymorph, cols: Columns, objs: Loaded, matched: string, id: Id)
    requires Distinct(p.associations) && matched in p.associations && '\n' !in matched
    ensures Getter(p, Assigned(p.associations, cols, matched, Some(id)), objs) == Read(objs, matched)
  {
    AssignedActiveKey(p, cols, matched, Some(id));
    StripIdOfKey(matched);
  }

  // ---------------------------------------------------------------------
  // Messages

  /** `InvalidTypeError.new(*accepted).message`. */
  function InvalidTypeMessage(accepted: seq<string>): (s: string)
    ensures "Invalid type. Must be one of {" <= s
    ensures s[|s| - 1] == '}'
  {
    "Invalid type. Must be one of {" + Join(accepted, ", ") + "}"
  }

  /** The message of each exception the mixin raises. */
  function Message(e: PolymorphicError): (s: string)
    ensures e.Base? ==> s == Inspect(e.payload)
    ensures e.InvalidTypeError? ==> s == InvalidTypeMessage(e.accepted)
    ensures e.AmbiguousTypeError? ==> s == "Ambiguous polymorphic interface or object type"
  {
    match e
    case Base(payload) => Inspect(payload)
    case InvalidTypeError(accepted) => InvalidTypeMessage(accepted)
    case AmbiguousTypeError => "Ambiguous polymorphic interface or object type"
  }

  /** The error raised for an object of an undeclared type names every declared association. */
  lemma UnmatchedMessageNamesEach(p: Polymorph, obj: Obj, i: nat)
    requires i < |p.associations|
    requires obj.typeTag !in p.associations && obj.parentTag !in p.associations
    ensures Resolve(p, obj).Err? && IsInfix(p.associations[i], Message(Resolve(p, obj).error))
  {
    InspectMentionsEach(p.associations, i);
  }

  /** `InvalidTypeError`'s message names every accepted type. */
  lemma InvalidTypeMessageNamesEach(accepted: seq<string>, i: nat)
    requires i < |accepted|
    ensures IsInfix(accepted[i], InvalidTypeMessage(accepted))
  {
    JoinMentionsEach(accepted, ", ", i);
    InfixOfConcat(accepted[i], "Invalid type. Must be one of {", Join(accepted, ", "), "}");
  }

  /** The validator's message: "You must specify exactly one of the following: {a, b}". */
  function ValidationMessage(p: Polymorph): (s: string)
    ensures "You must specify exactly one of the following: {" <= s
    ensures s[|s| - 1] == '}'
  {
    "You must specify exactly one of the following: {" + Join(p.associations, ", ") + "}"
  }

  /** The validation message names every declared association. */
  lemma ValidationMessageNamesEach(p: Polymorph, i: nat)
    requires i < |p.associations|
    ensures IsInfix(p.associations[i], ValidationMessage(p))
  {
    JoinMentionsEach(p.associations, ", ", i);
    InfixOfConcat(p.associations[i], "You must specify exactly one of the following: {", Join(p.associations, ", "), "}");
  }

  // ---------------------------------------------------------------------
  // The record

  /** A model instance: its foreign-key columns, its association readers and its errors. */
  class Record {
    var columns: Columns
    var associated: Loaded
    var errors: seq<ErrorEntry>

    constructor (columns: Columns, associated: Loaded)
      ensures this.columns == columns && this.associated == associated && errors == []
    {
      this.columns := columns;
      this.associated := associated;
      errors := [];
    }

    /**
     * The setter `<api>=`: on a match, writes the object's id to the matched
     * key and then sets every other declared key to nil; on an error, raises
     * and changes nothing.
     */
    method AssignPolymorph(p: Polymorph, obj: Obj) returns (raised: Option<PolymorphicError>)
      modifies this`columns
      ensures raised == (match Resolve(p, obj) case Ok(_) => None case Err(e) => Some(e))
      ensures Resolve(p, obj).Err? ==> columns == old(columns)
      ensures Resolve(p, obj).Ok? ==>
                columns == Assigned(p.associations, old(columns), Resolve(p, obj).value, obj.id)
    {
      var decision := Resolve(p, obj);
      if decision.Err? {
        return Some(decision.error);
      }
      var matched := decision.value;
      columns := columns[Key(matched) := obj.id];
      // `associations - match`: every other association, in declaration order
      var rest := Filter(p.associations, a => a != matched);
      var i := 0;
      while i < |rest|
        invariant 0 <= i <= |rest|
        invariant columns == Written(old(columns), matched, obj.id, rest[..i])
      {
        assert rest[..i + 1][..i] == rest[..i];
        columns := columns[Key(rest[i]) := None];
        i := i + 1;
      }
      assert rest[..i] == rest;
      WrittenIsAssigned(old(columns), matched, obj.id, rest);
      AssignedOthers(p.associations, rest, old(columns), matched, obj.id);
      raised := None;
    }

    /**
     * The validator `polymorphic_<api>_relationship_is_valid`: adds one
     * `:base` error when the getter returns nil, and nothing otherwise.
     */
    method ValidateRelationship(p: Polymorph)
      modifies this`errors
      ensures errors == old(errors) +
                if Getter(p, columns, associated).None? then [ErrorEntry("base", ValidationMessage(p))] else []
    {
      if Getter(p, columns, associated).None? {
        errors := errors + [ErrorEntry("base", ValidationMessage(p))];
      }
    }
  }

  /**
   * A record whose setter succeeded with a saved object, and whose reader for
   * the matched association finds that object, passes validation.
   */
  lemma AssignedRecordIsValid(p: Polymorph, cols: Columns, objs: Loaded, matched: string, id: Id)
    requires Distinct(p.associations) && matched in p.associations && '\n' !in matched
    requires matched in objs
    ensures Getter(p, Assigned(p.associations, cols, matched, Some(id)), objs).Some?
  {
    AssignedGetter(p, cols, objs, matched, id);
  }
}
