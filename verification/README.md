# Delivery assignment core, modelled in Dafny

This project models four pieces of pure logic from a food-delivery back end:

- the capacity **bag** of a delivery worker (`DeliveryBag`),
- the **nearest-to-full filter**, which keeps the candidate workers whose bag is closest to full,
- the **state factory**, which turns a stored Spanish state name into an order lifecycle state,
- **client validation**, which builds a client only when the user name, phone and address are valid.

Files:

- `wrappers.dfy`: `Option` for Ruby's `nil`, and `Result` for an operation that raises.
- `delivery_bag.dfy`: module `DeliveryBag`.
- `nearest_to_full_filter.dfy`: module `NearestToFullFilter`.
- `state_factory.dfy`: module `StateFactory`.
- `client.dfy`: module `Client`.

How each part is modelled:

- **Orders.** An order is modelled by its integer size alone.
- **Bag.** A bag is a record holding its remaining size. Loading is a pure function from the old bag to the new one. `fits?` is a predicate, so it cannot change the bag.
- **Filter.** The filter is modelled twice.
  - `Apply` follows the source's `group_by`, then `min`, then `last`.
  - `Nearest` is a reference definition: the minimal-size candidates, in input order.
  - `Apply` is proved to return `Nearest`.
- **Regular expressions.** The two regular expressions of `Client` are written as character predicates that follow the expressions' structure. Lemmas prove exactly which strings they accept.

Two facts about the code shape the model:

- `NearestToFullFilter#apply` (app/model/asignment_filters/nearest_to_full_filter.rb:9-11) returns the minimal group itself and does not use `@next_filter`. Any tie-breaking done by a caller or by the `Filter` base class is outside this model.
- A bag's remaining size can rise above 3 or fall below 0. `load_order` has no guard and takes any integer size. The bounds hold only under the caller discipline that `EachFitsKeepsBounds` states.

## Model

| member | source | states |
|---|---|---|
| `DeliveryBag.New` | app/model/delivery_bag.rb:4-6 | A new bag has remaining size 3: an order of size 3 fits and an order of size 4 does not. |
| `DeliveryBag.FitsGuardsLoad` | app/model/delivery_bag.rb:8-14 | `fits?` holds exactly when loading that order leaves a non-negative size. Loading an order of size 4 into a new bag leaves -1. So `load_order` itself does not guard. |
| `DeliveryBag.LoadNeverIncreases` | app/model/delivery_bag.rb:8-10 | Loading an order of non-negative size never increases the remaining size. |
| `DeliveryBag.LoadAll` | app/model/delivery_bag.rb:16-18 | Loading a collection one order at a time removes exactly the collection's total size. An empty collection leaves the bag unchanged. |
| `DeliveryBag.LoadOrdersFromCollection` | app/model/delivery_bag.rb:16-18 | The `each` loop gives the same bag as the order-by-order fold `LoadAll`. So it removes exactly the collection's total size. |
| `DeliveryBag.LoadAllOrderIndependent` | app/model/delivery_bag.rb:16-18 | Any two orderings of the same multiset of orders leave the same bag. |
| `DeliveryBag.LoadAllNeverIncreases` | app/model/delivery_bag.rb:16-18 | Loading a collection of non-negative orders never increases the remaining size. |
| `DeliveryBag.EachFitsIffTotalFits` | app/model/delivery_bag.rb:8-18 | Take a bag that is not overdrawn and orders of non-negative size. Then `fits?` passes before every load exactly when the whole collection fits at once. |
| `DeliveryBag.EachFitsKeepsBounds` | app/model/delivery_bag.rb:4-18 | Suppose `fits?` is checked before each load. Then the remaining size stays between 0 and its starting value, and so never exceeds 3. |
| `NearestToFullFilter.GroupBySize` | app/model/asignment_filters/nearest_to_full_filter.rb:10 | `group_by` returns one group per distinct bag size. Keys are distinct. Each group is non-empty and holds exactly that size's deliveries in input order. Every input size has a group. |
| `NearestToFullFilter.MinKeyIndex` | app/model/asignment_filters/nearest_to_full_filter.rb:10 | `min` picks the group whose key is no larger than any other key. |
| `NearestToFullFilter.Apply` | app/model/asignment_filters/nearest_to_full_filter.rb:9-11 | The result is missing exactly when the input is empty, because `nil.last` raises. Otherwise it is the reference answer `Nearest`. It depends on the candidates alone, never on the order argument. |
| `NearestToFullFilter.Nearest` | app/model/asignment_filters/nearest_to_full_filter.rb:10 | On a non-empty input the answer is non-empty. Every member has the minimum bag size. Every minimal candidate is kept. The answer is an in-order subsequence of the input. |
| `NearestToFullFilter.NearestUnique` | app/model/asignment_filters/nearest_to_full_filter.rb:10 | Three properties pin the answer down completely: an in-order subsequence, minimal sizes only, and every minimal candidate kept as often as it occurs. |
| `NearestToFullFilter.NearestAllSame` | app/model/asignment_filters/nearest_to_full_filter.rb:10 | When all candidates share one bag size, the answer is the whole input. |
| `NearestToFullFilter.NearestIdempotent` | app/model/asignment_filters/nearest_to_full_filter.rb:10 | Filtering the answer again returns the same answer. |
| `StateFactory.CreateFor` | app/states/state_factory.rb:19-23 | The factory answers every string. An unrecognised name gives `Invalid`. `Invalid` comes only from `invalid_state` or an unrecognised name. `Delivered` comes only from `entregado` and carries the factory's weather. |
| `StateFactory.CreateForKnownLabels` | app/states/state_factory.rb:8-13 | Each of the six names maps to its own state: recibido, en_preparacion, en_entrega, entregado (with the factory's weather), invalid_state, cancelado. |
| `StateFactory.CreateForIgnoresWeather` | app/states/state_factory.rb:8-16 | For every name other than `entregado`, the result is the same whatever weather built the factory. |
| `StateFactory.CreateForNameOf` | app/states/state_factory.rb:8-13 | Looking up the table name of any state recreates that state. For a delivered state, the weather must be the factory's. |
| `StateFactory.NameOfCreateFor` | app/states/state_factory.rb:8-13 | Every recognised name is the table name of the state it creates. With `CreateForNameOf`, the table is a bijection between its six names and the six kinds of state. |
| `Client.NameBodyIff` | app/model/client.rb:4 | The body of the name expression accepts exactly the strings of name characters and dashes that do not end in a dash. Name characters are `_`, `A` to `z` and digits. |
| `Client.PhoneBodyIff` | app/model/client.rb:5 | The body of the phone expression accepts exactly the strings that have at least two characters, are digits with at most one hyphen, and begin and end with a digit. |
| `Client.ValidUsernameIff` | app/model/client.rb:35-37 | A user name is valid exactly when it is a non-empty name word, optionally followed by one newline (the `\Z` anchor). |
| `Client.ValidPhoneIff` | app/model/client.rb:39-41 | A phone is valid exactly when it is a phone word, optionally followed by one newline. |
| `Client.NewClient` | app/model/client.rb:10-26 | Construction succeeds exactly when all three fields are valid. A bad user name fails with `INVALID_USERNAME` whatever the other fields hold. The phone is checked next, then the address (non-blank, at least 5 characters). On success the id, name, phone and address are stored exactly as given. |
| `Client.IsUsernameOfNewClient` | app/model/client.rb:29-31 | On a client built from some data, `username?` holds exactly for the user name in that data. |
| `Client.RegistrationExample` | app/model/client.rb:10-26 | `jperez` / `4123-4123` / `Av Paseo Colón 840` is accepted and stored as given. |
| `Client.UsernameEdgeCases` | app/model/client.rb:4 | `jperez-` is refused whatever the other fields are. `jperez` followed by a newline is accepted. |
| `Client.PhoneEdgeCases` | app/model/client.rb:5 | `4123--4123`, `4123-` and `4` are refused. |

## Left out

- `NearestToFullFilter#initialize` records a successor filter, which `apply` itself does not use. The successor class, `DeliveredCountFilter`, and the `Filter` base class are not part of this model, so any delegation to the successor they may perform is not modelled.
- The assignment engine `DeliveryAssigner#assign_to` is not part of this model. Neither are `Order` (its size per order type, rating setter and `change_state`), the individual state classes and `NullCommission`.
- `Commission` is left out. Its amount is floating-point arithmetic inside a validation library.
- The order repository is left out. It is database persistence.
- The weather type is kept abstract, as a type parameter. The factory only passes it through.
- `Client#initialize` also copies `updated_on` and `created_on` unchanged. These timestamps are not modelled.
- `Client#initialize` reads its hash by key. The model treats each field as present or `nil`, so it leaves out how string and symbol keys are looked up.
- `Client.ValidAddress`: the model covers only `nil` and strings for `blank?` and the address length. Values of other Ruby types are not modelled.
- `Client.IsSpace`: `blank?` is modelled as `nil` or a string made only of Unicode White_Space characters. Other ActiveSupport details of `blank?` are not modelled.
- `DeliveryBag.LoadNeverIncreases` and `DeliveryBag.LoadAllNeverIncreases` require non-negative order sizes. The source accepts any integer, and a negative size would increase the remaining size.
