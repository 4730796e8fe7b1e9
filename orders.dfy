/** The order records: a row of the delivery file as read, and the same row
    after `clean_code`. Only the columns the pages use are kept; the
    coordinate columns feed the distance computation, which is not part of
    this model. */
module Orders {
  import opened Wrappers
  import Calendar

  /** One row as read from train.csv: every used column is text, except
      `Vehicle_condition`, which the file stores as a plain number. */
  datatype RawOrder = RawOrder(
    id: string,                  // ID
    deliveryPersonId: string,    // Delivery_person_ID
    age: string,                 // Delivery_person_Age
    ratings: string,             // Delivery_person_Ratings
    orderDate: string,           // Order_Date
    weather: string,             // Weatherconditions
    traffic: string,             // Road_traffic_density
    vehicleCondition: int,       // Vehicle_condition
    typeOfOrder: string,         // Type_of_order
    typeOfVehicle: string,       // Type_of_vehicle
    multipleDeliveries: string,  // multiple_deliveries
    festival: string,            // Festival
    city: string,                // City
    timeTaken: string)           // Time_taken(min)

  /** One row of the cleaned table. `orderDate` is `None` for `NaT`; the
      ratings stay text, since the model treats them as opaque. */
  datatype Order = Order(
    id: string,
    deliveryPersonId: string,
    age: int,
    ratings: string,
    orderDate: Option<Calendar.Date>,
    weather: string,
    traffic: string,
    vehicleCondition: int,
    typeOfOrder: string,
    typeOfVehicle: string,
    multipleDeliveries: int,
    festival: string,
    city: string,
    timeTaken: int)

  /** Every date of the table is a day of the calendar, as `to_datetime`
      only produces such days. */
  predicate DatesValid(rows: seq<Order>) {
    forall i :: 0 <= i < |rows| && rows[i].orderDate.Some? ==> Calendar.IsValid(rows[i].orderDate.value)
  }
}
