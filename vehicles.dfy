/** The vehicle record and the mock catalog generator. Each
    `Math.floor(Math.random() * k)` of the generator is a caller-supplied
    draw in `[0, k)`; the floating-point `rating` is not modelled. */
module Vehicles {
  import opened Text

  datatype Option<T> = None | Some(value: T)

  datatype Vehicle = Vehicle(
    id: int,
    make: string,
    model: string,
    year: int,
    price: int,
    fuelEconomy: string,
    horsepower: int,
    image: string)

  /** The manufacturers a generated vehicle can have. */
  const Makes: seq<string> :=
    ["Toyota", "Honda", "Ford", "Chevrolet", "Nissan", "Hyundai", "Kia", "Volkswagen", "BMW", "Mercedes-Benz"]

  /** The body categories a generated model name starts with. */
  const Models: seq<string> :=
    ["Sedan", "SUV", "Truck", "Hatchback", "Coupe", "Minivan", "Crossover", "Wagon", "Convertible", "Electric"]

  /** The random draws that go into one record, in the order the generator takes them. */
  datatype Draw = Draw(
    make: int,
    model: int,
    letter: int,
    year: int,
    price: int,
    city: int,
    highway: int,
    horsepower: int,
    imageMake: int)

  /** Each draw lies in `[0, k)` for the `k` it is scaled by. */
  predicate DrawInRange(d: Draw)
  {
    && 0 <= d.make < |Makes|
    && 0 <= d.model < |Models|
    && 0 <= d.letter < 26
    && 0 <= d.year < 5
    && 0 <= d.price < 60000
    && 0 <= d.city < 20
    && 0 <= d.highway < 20
    && 0 <= d.horsepower < 300
    && 0 <= d.imageMake < |Makes|
  }

  /** The "city/highway" fuel-economy text: two runs of digits around a single slash. */
  function FuelEconomy(city: nat, highway: nat): (r: string)
    ensures |r| == |NatToString(city)| + 1 + |NatToString(highway)|
    ensures r[|NatToString(city)|] == '/'
    ensures forall i :: 0 <= i < |r| && i != |NatToString(city)| ==> IsDigit(r[i])
  {
    NatToString(city) + "/" + NatToString(highway)
  }

  /** The position of the first `c` in `s`, or `|s|` when there is none. */
  function IndexOf(s: string, c: char): (k: nat)
    ensures k <= |s|
    ensures k < |s| ==> s[k] == c
    ensures forall i :: 0 <= i < k ==> s[i] != c
  {
    if s == [] then 0
    else if s[0] == c then 0
    else 1 + IndexOf(s[1..], c)
  }

  /** Reads a "city/highway" text back into its two numbers. */
  function ParseFuelEconomy(s: string): Option<(nat, nat)>
  {
    var k := IndexOf(s, '/');
    if k == |s| then None
    else
      var city, highway := s[..k], s[k + 1..];
      if |city| == 0 || |highway| == 0 || !AllDigits(city) || !AllDigits(highway) then None
      else Some((DigitsValue(city), DigitsValue(highway)))
  }

  lemma ParseFuelEconomyRoundTrip(city: nat, highway: nat)
    ensures ParseFuelEconomy(FuelEconomy(city, highway)) == Some((city, highway))
  {
    var a, b := NatToString(city), NatToString(highway);
    var s := FuelEconomy(city, highway);
    assert s[|a|] == '/';
    assert forall k :: 0 <= k < |a| ==> s[k] == a[k];
    assert s[..|a|] == a && s[|a| + 1..] == b;
    NatToStringRoundTrip(city);
    NatToStringRoundTrip(highway);
  }

  /** A model name: a category, one space, one upper-case letter. */
  predicate ModelWellFormed(m: string)
  {
    |m| >= 2 && m[..|m| - 2] in Models && m[|m| - 2] == ' ' && IsUpper(m[|m| - 1])
  }

  /** A canonical "city/highway" text with city in [20, 39] and highway in [25, 44]. */
  predicate FuelEconomyWellFormed(f: string)
  {
    match ParseFuelEconomy(f)
    case None => false
    case Some((city, highway)) => 20 <= city <= 39 && 25 <= highway <= 44 && f == FuelEconomy(city, highway)
  }

  /** The field ranges every generated record falls in. */
  predicate WellFormed(v: Vehicle)
  {
    && v.make in Makes
    && ModelWellFormed(v.model)
    && 2020 <= v.year <= 2024
    && 20000 <= v.price <= 79999
    && FuelEconomyWellFormed(v.fuelEconomy)
    && 150 <= v.horsepower <= 449
  }

  /** The record the generator builds at index `i` from the draws `d`. */
  function MakeVehicle(i: nat, d: Draw): (v: Vehicle)
    requires DrawInRange(d)
    ensures v.id == i + 1
    ensures WellFormed(v)
  {
    var model := Models[d.model] + " " + [(65 + d.letter) as char];
    assert model[..|model| - 2] == Models[d.model];
    ParseFuelEconomyRoundTrip(20 + d.city, 25 + d.highway);
    Vehicle(
      i + 1,
      Makes[d.make],
      model,
      2020 + d.year,
      20000 + d.price,
      FuelEconomy(20 + d.city, 25 + d.highway),
      150 + d.horsepower,
      "https://source.unsplash.com/featured/?" + Makes[d.imageMake] + ",car")
  }

  /** `generateVehicles(count)`, record `i` built from `draws[i]`. */
  function GenerateVehicles(count: nat, draws: seq<Draw>): (r: seq<Vehicle>)
    requires |draws| == count
    requires forall i :: 0 <= i < |draws| ==> DrawInRange(draws[i])
    ensures |r| == count
    ensures forall i :: 0 <= i < count ==> r[i].id == i + 1 && WellFormed(r[i])
  {
    seq(count, i requires 0 <= i < count => MakeVehicle(i, draws[i]))
  }

  /** The ids of a generated catalog lie in 1..count and no two records share one;
      with record `i` carrying `i + 1`, every id in 1..count is taken. */
  lemma GeneratedIdsDense(count: nat, draws: seq<Draw>)
    requires |draws| == count
    requires forall i :: 0 <= i < |draws| ==> DrawInRange(draws[i])
    ensures forall v :: v in GenerateVehicles(count, draws) ==> 1 <= v.id <= count
    ensures forall i, j :: 0 <= i < j < count ==>
      GenerateVehicles(count, draws)[i].id != GenerateVehicles(count, draws)[j].id
  {
  }
}
