/**
 * The places shown on the contact screen's map. The static marker asset of
 * the mobile app is not part of this model: every operation takes the
 * markers as an input sequence.
 */
module Markers {
  /** A property location: its name and its position in degrees. */
  datatype Marker = Marker(name: string, latitude: real, longitude: real)
}
