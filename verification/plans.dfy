/** The plan records of models/plan.go. */
module Plans {
  import opened Activities

  /** One center's activities for the week. */
  datatype CenterWeek = CenterWeek(centerId: string, centerName: string, events: seq<Activity>)

  /** One person's weeks at several centers. */
  datatype PersonCenterWeek = PersonCenterWeek(person: string, centerWeeks: seq<CenterWeek>)

  datatype Plan = Plan(plans: seq<PersonCenterWeek>)

  /** The input of the view: one week per center. */
  datatype CenterPlan = CenterPlan(plans: seq<CenterWeek>)
}
