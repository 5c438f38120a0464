/** What a sensor read delivers (app/include/sensor_hal.h). */
module Sensor {
  type Channel = c: nat | c < 6

  datatype Point = Point(timestamp: nat, channel: Channel, value: int)
}
