/**
 * The severity levels that rules report (the plugin's Globals.Markers
 * constants). Globals is not part of this model; only the levels' names are.
 */
module Globals {

  datatype SecurityLevel = Low | Medium | High
}
