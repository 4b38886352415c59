/** The entity component registry (Entity.cs): an entity keeps at most one
    component per component type in a dictionary keyed by that type, with add,
    get and remove operations that report failure instead of throwing. */
module Entities {
  import opened Wrappers

  /** Unity's Vector2. */
  datatype Vector2 = Vector2(x: real, y: real)

  /** The component records of Components.cs, with their default values. */
  datatype TransformComponent = TransformComponent(posX: int, posY: int, direction: Vector2)
  datatype BattleComponent = BattleComponent(power: real, cd: real, battleRadius: real)
  datatype HealthComponent = HealthComponent(hp: real)

  /** The dictionary key: the component's type. */
  datatype ComponentType = TransformType | BattleType | HealthType

  datatype Component =
    | Transform(transform: TransformComponent)
    | Battle(battle: BattleComponent)
    | Health(health: HealthComponent)

  function TypeOf(c: Component): ComponentType {
    match c
    case Transform(_) => TransformType
    case Battle(_) => BattleType
    case Health(_) => HealthType
  }

  /** A component dictionary is well formed when every entry sits under its own
      type, so the cast in TryGetComponent always succeeds. */
  ghost predicate WellTyped(components: map<ComponentType, Component>) {
    forall t :: t in components ==> TypeOf(components[t]) == t
  }

  /** TryGetComponent's answer on a dictionary value. */
  function Lookup(components: map<ComponentType, Component>, t: ComponentType): (r: Option<Component>)
    ensures r.Some? <==> t in components
    ensures r.Some? ==> r.value == components[t]
  {
    if t in components then Some(components[t]) else None
  }

  /** EntityBase, with the components of BattleEntity. */
  class Entity {
    var Id: nat
    var Name: string
    var componentsByType: map<ComponentType, Component>

    ghost predicate Valid()
      reads this
    {
      WellTyped(componentsByType)
    }

    /** BattleEntity's constructor: default transform, battle and health
        components, each added under its type; none of the three adds can fail. */
    constructor BattleEntity()
      ensures Valid()
      ensures Id == 0 && Name == ""
      ensures componentsByType == map[
        TransformType := Transform(TransformComponent(0, 0, Vector2(0.0, 0.0))),
        BattleType := Battle(BattleComponent(0.0, 0.0, 0.0)),
        HealthType := Health(HealthComponent(0.0))]
    {
      Id := 0;
      Name := "";
      componentsByType := map[];
      new;
      var ok := TryAddComponent(Transform(TransformComponent(0, 0, Vector2(0.0, 0.0))));
      if !ok {
        assert false;
      }
      ok := TryAddComponent(Battle(BattleComponent(0.0, 0.0, 0.0)));
      if !ok {
        assert false;
      }
      ok := TryAddComponent(Health(HealthComponent(0.0)));
      if !ok {
        assert false;
      }
    }

    /** Adds the component under its type unless that type is already present. */
    method TryAddComponent(component: Component) returns (ok: bool)
      requires Valid()
      modifies this`componentsByType
      ensures Valid()
      ensures ok <==> TypeOf(component) !in old(componentsByType)
      ensures ok ==> componentsByType == old(componentsByType)[TypeOf(component) := component]
      ensures !ok ==> componentsByType == old(componentsByType)
    {
      if TypeOf(component) in componentsByType {
        return false;
      }
      componentsByType := componentsByType[TypeOf(component) := component];
      return true;
    }

    /** The component stored under type t, or nothing (C#'s default) when there is none. */
    method TryGetComponent(t: ComponentType) returns (ok: bool, outComponent: Option<Component>)
      requires Valid()
      ensures ok <==> t in componentsByType
      ensures ok ==> outComponent == Some(componentsByType[t]) && TypeOf(outComponent.value) == t
      ensures !ok ==> outComponent == None
    {
      outComponent := None;
      if t in componentsByType {
        outComponent := Some(componentsByType[t]);
        return true, outComponent;
      }
      return false, outComponent;
    }

    /** Deletes the entry for type t, if there is one. */
    method TryRemoveComponent(t: ComponentType) returns (ok: bool)
      requires Valid()
      modifies this`componentsByType
      ensures Valid()
      ensures ok <==> t in old(componentsByType)
      ensures componentsByType == old(componentsByType) - {t}
    {
      if t !in componentsByType {
        return false;
      }
      componentsByType := componentsByType - {t};
      return true;
    }
  }

  /** Adding a component of a type the entity lacks and then asking for that
      type yields the component just added. */
  method AddThenGet(e: Entity, component: Component) returns (got: Option<Component>)
    requires e.Valid() && TypeOf(component) !in e.componentsByType
    modifies e`componentsByType
    ensures got == Some(component)
  {
    var added := e.TryAddComponent(component);
    var found;
    found, got := e.TryGetComponent(TypeOf(component));
  }

  /** Removing a type and then asking for it finds nothing, whether or not the
      type was present. */
  method RemoveThenGet(e: Entity, t: ComponentType) returns (found: bool, got: Option<Component>)
    requires e.Valid()
    modifies e`componentsByType
    ensures !found && got == None
  {
    var removed := e.TryRemoveComponent(t);
    found, got := e.TryGetComponent(t);
  }
}
