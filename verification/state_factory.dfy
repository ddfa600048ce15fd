/** `StateFactory`: turns a stored Spanish state name into an order state.

    The factory is built with a weather value and hands it to the delivered
    state only.  The weather type is left abstract (`W`): the factory never
    inspects it. */
module StateFactory {

  /** The order lifecycle states the factory can create. */
  datatype State<W> =
    | Received
    | InPreparation
    | OnDelivery
    | Delivered(weather: W)
    | Invalid
    | Cancelled

  /** The procs of `STATE_CREATOR`, one per state class; only the one for the
      delivered state uses the weather it is called with. */
  datatype Creator = MakeReceived | MakeInPreparation | MakeOnDelivery | MakeDelivered | MakeInvalid | MakeCancelled

  /** `STATE_CREATOR`: the recognised labels and their creators. */
  const StateCreator: map<string, Creator> := map[
    "recibido" := MakeReceived,
    "en_preparacion" := MakeInPreparation,
    "en_entrega" := MakeOnDelivery,
    "entregado" := MakeDelivered,
    "invalid_state" := MakeInvalid,
    "cancelado" := MakeCancelled
  ]

  /** `proc.call(weather)`. */
  function Call<W>(c: Creator, weather: W): State<W>
  {
    match c
    case MakeReceived => Received
    case MakeInPreparation => InPreparation
    case MakeOnDelivery => OnDelivery
    case MakeDelivered => Delivered(weather)
    case MakeInvalid => Invalid
    case MakeCancelled => Cancelled
  }

  /** `StateFactory.new(weather)`. */
  datatype Factory<W> = Factory(weather: W)

  /** `create_for(state_name)`: total; an unrecognised name yields the invalid
      state, and only a delivered state carries the factory's weather. */
  function CreateFor<W>(f: Factory<W>, name: string): (s: State<W>)
    ensures name !in StateCreator ==> s == Invalid
    ensures s.Invalid? <==> (name == "invalid_state" || name !in StateCreator)
    ensures s.Delivered? <==> name == "entregado"
    ensures s.Delivered? ==> s.weather == f.weather
  {
    if name !in StateCreator then Invalid
    else Call(StateCreator[name], f.weather)
  }

  /** The name under which `STATE_CREATOR` creates a state of the same kind
      as `s`. */
  function NameOf<W>(s: State<W>): (name: string)
    ensures name in StateCreator
  {
    match s
    case Received => "recibido"
    case InPreparation => "en_preparacion"
    case OnDelivery => "en_entrega"
    case Delivered(_) => "entregado"
    case Invalid => "invalid_state"
    case Cancelled => "cancelado"
  }

  // ---------------------------------------------------------------------------
  // Properties of the factory
  // ---------------------------------------------------------------------------

  /** Each of the six names creates its own state. */
  lemma CreateForKnownLabels<W>(f: Factory<W>)
    ensures CreateFor(f, "recibido") == Received
    ensures CreateFor(f, "en_preparacion") == InPreparation
    ensures CreateFor(f, "en_entrega") == OnDelivery
    ensures CreateFor(f, "entregado") == Delivered(f.weather)
    ensures CreateFor(f, "invalid_state") == Invalid
    ensures CreateFor(f, "cancelado") == Cancelled
  {
  }

  /** Apart from the delivered state, the result does not depend on the weather
      the factory was built with. */
  lemma CreateForIgnoresWeather<W>(w1: W, w2: W, name: string)
    requires name != "entregado"
    ensures CreateFor(Factory(w1), name) == CreateFor(Factory(w2), name)
  {
  }

  /** Reading back a state's name recreates that state, provided a delivered
      state carries the factory's weather: the table is a bijection between
      its six names and the six kinds of state. */
  lemma CreateForNameOf<W>(f: Factory<W>, s: State<W>)
    requires s.Delivered? ==> s.weather == f.weather
    ensures CreateFor(f, NameOf(s)) == s
  {
  }

  /** Conversely, every recognised name is the name of the state it creates. */
  lemma NameOfCreateFor<W>(f: Factory<W>, name: string)
    requires name in StateCreator
    ensures NameOf(CreateFor(f, name)) == name
  {
  }
}
