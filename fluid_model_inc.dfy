/**
 * The two equations of state of the incompressible solver
 * (fluid_model_inc.cpp): a constant-density fluid, and the incompressible
 * ideal gas whose density follows the temperature at a fixed operating
 * pressure. Both are objects whose SetTDState_T updates their fields in place.
 */
module IncFluidModel {

  /** The thermodynamic fields of a fluid model, as one value. */
  datatype State = State(density: real, temperature: real, pressure: real,
                         cp: real, cv: real, gamma: real, gasConstant: real)

  // ---------------------------------------------------------------------
  // Specification
  // ---------------------------------------------------------------------

  /** rho = P / (T R): the ideal-gas law at the operating pressure. */
  function IdealGasDensity(pressure: real, temperature: real, gasConstant: real): (rho: real)
    requires temperature * gasConstant != 0.0
    ensures rho * (temperature * gasConstant) == pressure
  {
    pressure / (temperature * gasConstant)
  }

  /** Incompressible ideal gas: temperature and density follow, everything else stays. */
  function IdealGasAt(s: State, t: real): (r: State)
    requires t * s.gasConstant != 0.0
    ensures r.temperature == t && r.density * (t * s.gasConstant) == s.pressure
    ensures r == s.(temperature := t, density := r.density)
  {
    s.(temperature := t, density := IdealGasDensity(s.pressure, t, s.gasConstant))
  }

  // ---------------------------------------------------------------------
  // Properties
  // ---------------------------------------------------------------------

  /** Setting the same temperature twice is the same as setting it once. */
  lemma IdealGasIdempotent(s: State, t: real)
    requires t * s.gasConstant != 0.0
    ensures IdealGasAt(IdealGasAt(s, t), t) == IdealGasAt(s, t)
  {}

  /** The state after SetTDState_T depends only on the parameters and T, not on the previous T or rho. */
  lemma IdealGasForgetsHistory(s1: State, s2: State, t: real)
    requires t * s1.gasConstant != 0.0
    requires s1.pressure == s2.pressure && s1.gasConstant == s2.gasConstant
    requires s1.cp == s2.cp && s1.cv == s2.cv && s1.gamma == s2.gamma
    ensures IdealGasAt(s1, t) == IdealGasAt(s2, t)
  {}

  /**
   * At a positive operating pressure and gas constant, a warmer gas is
   * lighter: the density strictly decreases with the temperature.
   */
  lemma WarmerIsLighter(p: real, r: real, t1: real, t2: real)
    requires p > 0.0 && r > 0.0 && 0.0 < t1 < t2
    ensures IdealGasDensity(p, t2, r) < IdealGasDensity(p, t1, r)
  {
    var a := t1 * r;
    var b := t2 * r;
    assert 0.0 < a < b by { ScaleStrict(t1, t2, r); }
    var rho1 := IdealGasDensity(p, t1, r);
    var rho2 := IdealGasDensity(p, t2, r);
    assert rho1 * a == p && rho2 * b == p;
    assert rho2 > 0.0 by { PositiveQuotient(rho2, b, p); }
    assert rho2 * a < rho2 * b by { ScaleStrict(a, b, rho2); }
    assert rho2 * a < rho1 * a;
    CancelPositive(rho2, rho1, a);
  }

  lemma ScaleStrict(x: real, y: real, c: real)
    requires x < y && c > 0.0
    ensures x * c < y * c && c * x < c * y
  {}

  lemma CancelPositive(x: real, y: real, c: real)
    requires x * c < y * c && c > 0.0
    ensures x < y
  {}

  lemma PositiveQuotient(q: real, b: real, p: real)
    requires q * b == p && b > 0.0 && p > 0.0
    ensures q > 0.0
  {}

  // ---------------------------------------------------------------------
  // The two classes
  // ---------------------------------------------------------------------

  /** CConstantDensity */
  class ConstantDensity {
    var density: real
    var cp: real
    var cv: real
    var temperature: real

    /** The default constructor: every stored parameter zero. */
    constructor Default()
      ensures density == 0.0 && cp == 0.0 && cv == 0.0
    {
      density := 0.0;
      cp := 0.0;
      cv := 0.0;
    }

    /** CConstantDensity(rho, cp): Cv = Cp, since gamma = 1. */
    constructor (valDensity: real, valCp: real)
      ensures density == valDensity && cp == valCp && cv == valCp
    {
      density := valDensity;
      cp := valCp;
      cv := valCp;
    }

    /** Only the temperature changes. */
    method SetTDStateT(valTemperature: real)
      modifies this
      ensures temperature == valTemperature
      ensures density == old(density) && cp == old(cp) && cv == old(cv)
    {
      temperature := valTemperature;
    }
  }

  /** CIncIdealGas */
  class IncIdealGas {
    var density: real
    var temperature: real
    var pressure: real
    var cp: real
    var cv: real
    var gamma: real
    var gasConstant: real

    function Current(): State reads this {
      State(density, temperature, pressure, cp, cv, gamma, gasConstant)
    }

    /** The default constructor: every stored parameter zero. */
    constructor Default()
      ensures pressure == 0.0 && gamma == 0.0 && gasConstant == 0.0 && cp == 0.0 && cv == 0.0
    {
      pressure := 0.0;
      gamma := 0.0;
      gasConstant := 0.0;
      cp := 0.0;
      cv := 0.0;
    }

    /** CIncIdealGas(cp, R, P_op): the pressure is held at the operating value, gamma = 1, Cv = Cp. */
    constructor (valCp: real, valGasConstant: real, valOperatingPressure: real)
      ensures gasConstant == valGasConstant && pressure == valOperatingPressure
      ensures gamma == 1.0 && cp == valCp && cv == cp
    {
      gasConstant := valGasConstant;
      pressure := valOperatingPressure;
      gamma := 1.0;
      cp := valCp;
      cv := cp;
    }

    /** Temperature = T, Density = Pressure / (T R). */
    method SetTDStateT(valTemperature: real)
      requires valTemperature * gasConstant != 0.0
      modifies this
      ensures Current() == IdealGasAt(old(Current()), valTemperature)
      ensures density * (temperature * gasConstant) == pressure
    {
      temperature := valTemperature;
      density := pressure / (temperature * gasConstant);
    }
  }
}
